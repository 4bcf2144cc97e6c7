/**
  run_unidecode (nlstruct/core/text.py:121-130): every character is
  transliterated on its own, and each character whose transliteration does
  not have length one is recorded as the one-character interval it replaced.
  The transliteration table is a parameter `t`.
 */
module Transliteration {
  import opened Deltas
  import DeltaLaws

  /** The interval recorded for the character at `i`, if any. */
  function CharDelta(i: int, out: string): seq<Delta>
  {
    if |out| != 1 then [Delta(i, i + 1, |out| - 1)] else []
  }

  /** run_unidecode, one character at a time from the left. */
  function Transliterate(text: string, t: char -> string): (r: Rewrite)
    ensures |r.text| == |text| + TotalDelta(r.deltas)
    ensures |r.deltas| <= |text|
    decreases |text|
  {
    if |text| == 0 then Rewrite("", [])
    else
      var n := |text| - 1;
      var prev := Transliterate(text[..n], t);
      var out := t(text[n]);
      TotalDeltaAppend(prev.deltas, CharDelta(n, out));
      Rewrite(prev.text + out, prev.deltas + CharDelta(n, out))
  }

  /** `d` is the interval run_unidecode records for the character at
      `d.begin`: one character long, of a transliteration whose length is not
      one, with that length minus one as its delta. */
  predicate RecordsChar(text: string, t: char -> string, d: Delta)
  {
    0 <= d.begin < |text| && |t(text[d.begin])| != 1 &&
    d == Delta(d.begin, d.begin + 1, |t(text[d.begin])| - 1)
  }

  /** Every recorded interval is the interval of a character whose
      transliteration does not have length one, and the intervals are listed
      in ascending order. */
  lemma {:induction false} TransliterateShape(text: string, t: char -> string)
    ensures forall k :: 0 <= k < |Transliterate(text, t).deltas| ==>
      RecordsChar(text, t, Transliterate(text, t).deltas[k])
    ensures Ascending(Transliterate(text, t).deltas)
  {
    if |text| > 0 {
      var n := |text| - 1;
      var prev := Transliterate(text[..n], t).deltas;
      var extra := CharDelta(n, t(text[n]));
      var ds := prev + extra;
      assert Transliterate(text, t).deltas == ds;
      TransliterateShape(text[..n], t);
      forall k | 0 <= k < |ds|
        ensures RecordsChar(text, t, ds[k])
        ensures k < |prev| ==> ds[k].end <= n
      {
        if k < |prev| {
          assert ds[k] == prev[k];
          assert RecordsChar(text[..n], t, prev[k]);
          assert text[..n][prev[k].begin] == text[prev[k].begin];
        }
      }
      forall i, j | 0 <= i < j < |ds|
        ensures ds[i].end <= ds[j].begin
      {
        if j < |prev| {
          assert ds[i] == prev[i] && ds[j] == prev[j];
        }
      }
    }
  }

  /** The concatenation of the per-character transliterations, from the
      front: the text run_unidecode builds. */
  function Flatten(text: string, t: char -> string): string
  {
    if |text| == 0 then "" else t(text[0]) + Flatten(text[1..], t)
  }

  lemma {:induction false} FlattenSnoc(text: string, t: char -> string)
    requires |text| > 0
    ensures Flatten(text, t) == Flatten(text[..|text| - 1], t) + t(text[|text| - 1])
  {
    if |text| == 1 {
      assert text[..0] == "";
    } else {
      var n := |text| - 1;
      assert text[1..][..n - 1] == text[..n][1..];
      assert text[1..][n - 1] == text[n];
      FlattenSnoc(text[1..], t);
    }
  }

  /** The new text is the concatenation of the transliterations. */
  lemma {:induction false} TransliterateText(text: string, t: char -> string)
    ensures Transliterate(text, t).text == Flatten(text, t)
  {
    if |text| > 0 {
      TransliterateText(text[..|text| - 1], t);
      FlattenSnoc(text, t);
    }
  }

  /** Exactly the characters whose transliteration does not have length one
      are recorded, one interval each. */
  lemma TransliterateRecordsChanged(text: string, t: char -> string, i: nat)
    requires i < |text|
    ensures var ds := Transliterate(text, t).deltas;
      |t(text[i])| != 1 <==> exists k :: 0 <= k < |ds| && ds[k].begin == i
  {
    var ds := Transliterate(text, t).deltas;
    TransliterateShape(text, t);
    forall k | 0 <= k < |ds| && ds[k].begin == i
      ensures |t(text[i])| != 1
    {
      assert RecordsChar(text, t, ds[k]);
    }
    if |t(text[i])| != 1 {
      ChangedIsRecorded(text, t, i);
    }
  }

  lemma {:induction false} ChangedIsRecorded(text: string, t: char -> string, i: nat)
    requires i < |text| && |t(text[i])| != 1
    ensures exists k :: 0 <= k < |Transliterate(text, t).deltas| && Transliterate(text, t).deltas[k].begin == i
  {
    var n := |text| - 1;
    var prev := Transliterate(text[..n], t).deltas;
    var ds := Transliterate(text, t).deltas;
    assert ds == prev + CharDelta(n, t(text[n]));
    if i < n {
      assert text[..n][i] == text[i];
      ChangedIsRecorded(text[..n], t, i);
      var k :| 0 <= k < |prev| && prev[k].begin == i;
      assert ds[k] == prev[k];
    } else {
      assert ds[|prev|].begin == i;
    }
  }

  /** A transliteration never places a position strictly inside an
      interval: the recorded intervals have length one. */
  lemma TransliterateOutside(text: string, t: char -> string, p: int)
    ensures Outside(Transliterate(text, t).deltas, p)
  {
    TransliterateShape(text, t);
    var ds := Transliterate(text, t).deltas;
    forall k | 0 <= k < |ds|
      ensures !Inside(ds[k], p)
    {
      assert RecordsChar(text, t, ds[k]);
    }
  }

  /** Positions of the old text map to the length of the transliteration of
      the prefix before them; in particular the end of the text maps to the
      end of the new text. */
  lemma {:induction false} TransliterateApply(text: string, t: char -> string, p: int, side: Side)
    requires 0 <= p <= |text|
    ensures Apply(Transliterate(text, t).deltas, p, side) == |Flatten(text[..p], t)|
  {
    TransliterateOutside(text, t, p);
    ShiftBeforeTransliterate(text, t, p);
  }

  lemma {:induction false} ShiftBeforeTransliterate(text: string, t: char -> string, p: int)
    requires 0 <= p <= |text|
    ensures p + ShiftBefore(Transliterate(text, t).deltas, p) == |Flatten(text[..p], t)|
    decreases |text|
  {
    if p == |text| {
      ShiftBeforeWhole(text, t);
      assert text[..p] == text;
    } else {
      var n := |text| - 1;
      ShiftBeforeDropLast(text, t, p);
      ShiftBeforeTransliterate(text[..n], t, p);
      assert text[..n][..p] == text[..p];
    }
  }

  /** The end of the text is shifted by the whole change of length. */
  lemma ShiftBeforeWhole(text: string, t: char -> string)
    ensures |text| + ShiftBefore(Transliterate(text, t).deltas, |text|) == |Flatten(text, t)|
  {
    var r := Transliterate(text, t);
    TransliterateShape(text, t);
    forall k | 0 <= k < |r.deltas|
      ensures r.deltas[k].end <= |text|
    {
      assert RecordsChar(text, t, r.deltas[k]);
    }
    ShiftBeforeAll(r.deltas, |text|);
    TransliterateText(text, t);
  }

  /** The interval of the last character ends after any earlier position. */
  lemma ShiftBeforeDropLast(text: string, t: char -> string, p: int)
    requires 0 <= p < |text|
    ensures ShiftBefore(Transliterate(text, t).deltas, p) ==
      ShiftBefore(Transliterate(text[..|text| - 1], t).deltas, p)
  {
    var n := |text| - 1;
    var prev := Transliterate(text[..n], t);
    var extra := CharDelta(n, t(text[n]));
    assert Transliterate(text, t).deltas == prev.deltas + extra;
    ShiftBeforeAppend(prev.deltas, extra, p);
    assert ShiftBefore(extra, p) == 0;
  }

  /** When no character is transliterated to the empty string, unapply
      undoes apply at every position. */
  lemma TransliterateRoundTrip(text: string, t: char -> string, p: int, side: Side)
    requires forall i :: 0 <= i < |text| ==> |t(text[i])| > 0
    ensures var ds := Transliterate(text, t).deltas;
      Unapply(ds, Apply(ds, p, side), side) == p
  {
    var ds := Transliterate(text, t).deltas;
    TransliterateShape(text, t);
    forall k | 0 <= k < |ds|
      ensures ds[k].begin <= ds[k].end && ds[k].end - ds[k].begin + ds[k].delta > 0
    {
      assert RecordsChar(text, t, ds[k]);
    }
    TransliterateOutside(text, t, p);
    DeltaLaws.RoundTrip(ds, p, side);
  }
}
