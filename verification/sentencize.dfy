/**
  The sequential path of mimic_sentencize_
  (nlstruct/chunking/mimic_sentencize.py:44-70). Each document is split into
  parts by a blank-line separator; the parts at even positions are
  tokenised, and their tokens are packed into sentences of
  `max_sentence_length` tokens, the last sentence of a part taking up to
  twice as many (the whole part when the length is negative). Sentence
  offsets are document offsets.

  The separator split and the tokeniser are regular expressions in the
  original; here they are the parameters `split` and `tokenize`.
 */
module Sentencize {
  import opened Wrappers

  /** A token, by its offsets in the part that contains it. */
  datatype Token = Token(start: int, end: int)

  /** The tokens `first .. last - 1` of a part. */
  datatype Chunk = Chunk(first: int, last: int)

  /** A document of the input table. */
  datatype Doc<D> = Doc(docId: D, text: string)

  /** A row of the output table. */
  datatype Sentence<D> = Sentence(docId: D, sentenceId: int, begin: int, end: int, text: string)

  /** `range` with a zero step raises ValueError. */
  datatype SentencizeError = ZeroStep

  // ---------------------------------------------------------------------------
  // Chunking one part
  // ---------------------------------------------------------------------------

  /** `cs` cuts the tokens `from .. n - 1` into consecutive non-empty runs,
      in order. */
  predicate TilesFrom(cs: seq<Chunk>, from: int, n: int)
  {
    && (|cs| == 0 <==> from == n)
    && (|cs| > 0 ==> cs[0].first == from && cs[|cs| - 1].last == n)
    && (forall k :: 0 <= k < |cs| ==> from <= cs[k].first < cs[k].last <= n)
    && (forall k :: 0 <= k < |cs| - 1 ==> cs[k].last == cs[k + 1].first)
    && (forall i, j :: 0 <= i < j < |cs| ==> cs[i].last <= cs[j].first)
  }

  /** `cs` cuts all `n` tokens of a part. */
  predicate Tiles(cs: seq<Chunk>, n: int)
  {
    TilesFrom(cs, 0, n)
  }

  /** The inner loop over the chunk ends of a part, resumed at token `last`,
      followed by the final sentence of the tokens left over. */
  function ChunksFrom(n: nat, size: nat, last: nat): (cs: seq<Chunk>)
    requires size > 0 && last <= n
    ensures |cs| == 0 <==> last == n
    decreases n - last
  {
    if last + size < n - size then
      [Chunk(last, last + size)] + ChunksFrom(n, size, last + size)
    else if last < n then
      [Chunk(last, n)]
    else
      []
  }

  lemma {:induction false} ChunksFromTiles(n: nat, size: nat, last: nat)
    requires size > 0 && last <= n
    ensures TilesFrom(ChunksFrom(n, size, last), last, n)
    decreases n - last
  {
    if last + size < n - size {
      var rest := ChunksFrom(n, size, last + size);
      ChunksFromTiles(n, size, last + size);
      assert ChunksFrom(n, size, last) == [Chunk(last, last + size)] + rest;
      TilesFromCons(Chunk(last, last + size), rest, n);
    }
  }

  /** A non-empty chunk in front of a tiling of the tokens after it. */
  lemma TilesFromCons(c: Chunk, rest: seq<Chunk>, n: int)
    requires c.first < c.last < n && TilesFrom(rest, c.last, n)
    ensures TilesFrom([c] + rest, c.first, n)
  {
    var cs := [c] + rest;
    assert forall k :: 1 <= k < |cs| ==> cs[k] == rest[k - 1];
    forall i, j | 0 <= i < j < |cs|
      ensures cs[i].last <= cs[j].first
    {
      if i > 0 {
        assert cs[i] == rest[i - 1] && cs[j] == rest[j - 1];
      }
    }
  }

  lemma {:induction false} ChunksFromSizes(n: nat, size: nat, last: nat)
    requires size > 0 && last <= n
    ensures var cs := ChunksFrom(n, size, last);
      && (forall k :: 0 <= k < |cs| - 1 ==> cs[k].last - cs[k].first == size)
      && (|cs| > 0 ==> cs[|cs| - 1].last - cs[|cs| - 1].first <= 2 * size)
      && (|cs| > 1 ==> cs[|cs| - 1].last - cs[|cs| - 1].first > size)
    decreases n - last
  {
    if last + size < n - size {
      var rest := ChunksFrom(n, size, last + size);
      ChunksFromSizes(n, size, last + size);
      var cs := ChunksFrom(n, size, last);
      assert cs == [Chunk(last, last + size)] + rest;
      assert |rest| > 0 && cs[|cs| - 1] == rest[|rest| - 1];
      forall k | 1 <= k < |cs| - 1
        ensures cs[k].last - cs[k].first == size
      {
        assert cs[k] == rest[k - 1];
      }
    }
  }

  /** The chunks of a part of `n` tokens, for `max_sentence_length` `size`.
      A negative size makes the range empty, and the part becomes one
      sentence. */
  function Chunks(n: nat, size: int): (r: Result<seq<Chunk>, SentencizeError>)
    ensures r.Failure? <==> size == 0
    ensures r.Success? ==> Tiles(r.value, n)
  {
    if size == 0 then Failure(ZeroStep)
    else if size < 0 then Success(if n > 0 then [Chunk(0, n)] else [])
    else
      ChunksFromTiles(n, size, 0);
      Success(ChunksFrom(n, size, 0))
  }

  /** Every chunk but the last holds exactly `size` tokens; the last holds at
      most `2 * size`, and more than `size` when others precede it. */
  lemma ChunkSizes(n: nat, size: int)
    requires size > 0
    ensures var cs := Chunks(n, size).value;
      && (forall k :: 0 <= k < |cs| - 1 ==> cs[k].last - cs[k].first == size)
      && (|cs| > 0 ==> cs[|cs| - 1].last - cs[|cs| - 1].first <= 2 * size)
      && (|cs| > 1 ==> cs[|cs| - 1].last - cs[|cs| - 1].first > size)
  {
    ChunksFromSizes(n, size, 0);
  }

  /** A part of at most `2 * size` tokens becomes a single sentence, and a
      part with no tokens none. */
  lemma ShortPartOneChunk(n: nat, size: int)
    requires size != 0 && (size > 0 ==> n <= 2 * size)
    ensures Chunks(n, size) == Success(if n > 0 then [Chunk(0, n)] else [])
  {
  }

  /** The tokens of each chunk, in chunk order. */
  function Pieces<T>(ts: seq<T>, cs: seq<Chunk>): seq<seq<T>>
    requires forall k :: 0 <= k < |cs| ==> 0 <= cs[k].first <= cs[k].last <= |ts|
  {
    seq(|cs|, k requires 0 <= k < |cs| => ts[cs[k].first..cs[k].last])
  }

  function Concat<T>(ss: seq<seq<T>>): seq<T>
  {
    if |ss| == 0 then [] else ss[0] + Concat(ss[1..])
  }

  /** Chunking a part is a partition of its tokens: read back chunk by chunk,
      every token appears exactly once and in its place. */
  lemma ChunksPartition<T>(ts: seq<T>, size: int)
    requires size != 0
    ensures Concat(Pieces(ts, Chunks(|ts|, size).value)) == ts
  {
    var cs := Chunks(|ts|, size).value;
    TilesPartition(ts, cs, 0);
  }

  lemma {:induction false} TilesPartition<T>(ts: seq<T>, cs: seq<Chunk>, from: nat)
    requires TilesFrom(cs, from, |ts|)
    ensures Concat(Pieces(ts, cs)) == ts[from..]
    decreases |cs|
  {
    if |cs| > 0 {
      var rest := cs[1..];
      var mid := cs[0].last;
      assert Pieces(ts, cs)[1..] == Pieces(ts, rest);
      if |rest| > 0 {
        assert rest[0].first == mid;
      }
      TilesPartition(ts, rest, mid);
      assert ts[from..] == ts[from..mid] + ts[mid..];
    }
  }

  // ---------------------------------------------------------------------------
  // Sentences of one part
  // ---------------------------------------------------------------------------

  /** Python's `s[b:e]` for integer bounds: negative bounds count from the
      end, bounds are clamped to the string, and a reversed range is empty. */
  function PySlice(s: string, b: int, e: int): (r: string)
    ensures 0 <= b <= e <= |s| ==> r == s[b..e]
    ensures |r| <= |s|
  {
    var lo := Clamp(b, |s|);
    var hi := Clamp(e, |s|);
    if lo < hi then s[lo..hi] else ""
  }

  function Clamp(i: int, n: nat): (r: int)
    ensures 0 <= r <= n
    ensures 0 <= i <= n ==> r == i
  {
    if i < 0 then (if i + n < 0 then 0 else i + n)
    else if i > n then n
    else i
  }

  /** Token offsets of a part moved to document offsets. */
  function Shift(ts: seq<Token>, idx: int): (r: seq<Token>)
    ensures |r| == |ts|
  {
    seq(|ts|, k requires 0 <= k < |ts| => Token(ts[k].start + idx, ts[k].end + idx))
  }

  /** The rows of one document carry its id, are numbered on from the
      counter value `sid`, one more per row, and hold the document text
      sliced at their own offsets. */
  predicate Numbered<D(==)>(r: seq<Sentence<D>>, docId: D, txt: string, sid: int)
  {
    forall k :: 0 <= k < |r| ==>
      && r[k].docId == docId && r[k].sentenceId == sid + k
      && r[k].text == PySlice(txt, r[k].begin, r[k].end)
  }

  /** The rows of one part, one per chunk: from the start of its first token
      to the end of its last, with the text of document `txt` in between,
      numbered by the running counter `sid`, which goes up by one per row
      emitted. */
  function PartRows<D(==)>(docId: D, txt: string, spans: seq<Token>, cs: seq<Chunk>, sid: int)
    : (r: seq<Sentence<D>>)
    requires forall k :: 0 <= k < |cs| ==> 0 <= cs[k].first < cs[k].last <= |spans|
    ensures |r| == |cs|
    ensures Numbered(r, docId, txt, sid)
    ensures SpansChunks(r, spans, cs)
    decreases |cs|
  {
    if |cs| == 0 then []
    else
      var b := spans[cs[0].first].start;
      var e := spans[cs[0].last - 1].end;
      var row := Sentence(docId, sid, b, e, PySlice(txt, b, e));
      var rest := PartRows(docId, txt, spans, cs[1..], sid + 1);
      NumberedConcat([row], rest, docId, txt, sid);
      RowBoundsCons(row, rest, spans, cs);
      [row] + rest
  }

  /** The rows span their chunks, first token to last. */
  predicate SpansChunks<D>(r: seq<Sentence<D>>, spans: seq<Token>, cs: seq<Chunk>)
    requires |r| == |cs|
    requires forall k :: 0 <= k < |cs| ==> 0 <= cs[k].first < cs[k].last <= |spans|
  {
    forall k :: 0 <= k < |r| ==>
      r[k].begin == spans[cs[k].first].start && r[k].end == spans[cs[k].last - 1].end
  }

  lemma RowBoundsCons<D>(row: Sentence<D>, rest: seq<Sentence<D>>, spans: seq<Token>, cs: seq<Chunk>)
    requires |cs| > 0 && |rest| == |cs| - 1
    requires forall k :: 0 <= k < |cs| ==> 0 <= cs[k].first < cs[k].last <= |spans|
    requires row.begin == spans[cs[0].first].start && row.end == spans[cs[0].last - 1].end
    requires SpansChunks(rest, spans, cs[1..])
    ensures SpansChunks([row] + rest, spans, cs)
  {
    var r := [row] + rest;
    forall k | 1 <= k < |r|
      ensures r[k].begin == spans[cs[k].first].start && r[k].end == spans[cs[k].last - 1].end
    {
      assert r[k] == rest[k - 1] && cs[k] == cs[1..][k - 1];
    }
  }

  /** The tokens of a part lie inside it, are non-empty and come in
      ascending, non-overlapping order: what `finditer` yields for a pattern
      that never matches the empty string. */
  predicate TokensIn(ts: seq<Token>, lo: int, hi: int)
  {
    && (forall k :: 0 <= k < |ts| ==> lo <= ts[k].start < ts[k].end <= hi)
    && (forall i, j :: 0 <= i < j < |ts| ==> ts[i].end <= ts[j].start)
  }

  /** The sentences lie between `lo` and `hi`, each non-empty, each ending
      at or before any later one begins. */
  predicate Laid<D>(r: seq<Sentence<D>>, lo: int, hi: int)
  {
    && (forall k :: 0 <= k < |r| ==> lo <= r[k].begin < r[k].end <= hi)
    && (forall i, j :: 0 <= i < j < |r| ==> r[i].end <= r[j].begin)
  }

  /** The sentences of a part are non-empty, lie inside the part and follow
      each other without overlap. */
  lemma PartLayout<D>(docId: D, txt: string, spans: seq<Token>, cs: seq<Chunk>, sid: int, lo: int, hi: int)
    requires Tiles(cs, |spans|) && TokensIn(spans, lo, hi)
    ensures Laid(PartRows(docId, txt, spans, cs, sid), lo, hi)
  {
    ChunkBoundsLaid(PartRows(docId, txt, spans, cs, sid), spans, cs, lo, hi);
  }

  /** Rows spanning the chunks of a tiling, first token to last, are laid
      out in order inside the part. */
  lemma ChunkBoundsLaid<D>(r: seq<Sentence<D>>, spans: seq<Token>, cs: seq<Chunk>, lo: int, hi: int)
    requires Tiles(cs, |spans|) && TokensIn(spans, lo, hi) && |r| == |cs|
    requires SpansChunks(r, spans, cs)
    ensures Laid(r, lo, hi)
  {
    forall k | 0 <= k < |r|
      ensures lo <= r[k].begin < r[k].end <= hi
    {
      var f := cs[k].first;
      var l := cs[k].last - 1;
      if f < l {
        assert spans[f].end <= spans[l].start;
      }
    }
    forall i, j | 0 <= i < j < |r|
      ensures r[i].end <= r[j].begin
    {
      var l := cs[i].last - 1;
      var f := cs[j].first;
      assert l < f;
      assert spans[l].end <= spans[f].start;
    }
  }

  // ---------------------------------------------------------------------------
  // One document
  // ---------------------------------------------------------------------------

  function TotalLength(parts: seq<string>): int
  {
    if |parts| == 0 then 0 else |parts[0]| + TotalLength(parts[1..])
  }

  /** The rows of one sentence-bearing part whose first character is at
      document offset `idx`, numbered on from the counter value `sid`. */
  function PartHere<D(==)>(part: string, docId: D, txt: string, tokenize: string -> seq<Token>, size: int,
                           idx: int, sid: int): seq<Sentence<D>>
    requires size != 0
  {
    var spans := Shift(tokenize(part), idx);
    PartRows(docId, txt, spans, Chunks(|spans|, size).value, sid)
  }

  /** A sentence-bearing part is left: the first remaining part when it
      bears sentences, or the one after it. */
  predicate SentencePartRemains(n: nat, inSentence: bool)
  {
    n > 0 && (inSentence || n > 1)
  }

  /** Every sentence-bearing part is tokenised inside its own bounds. */
  predicate WellTokenized(parts: seq<string>, tokenize: string -> seq<Token>, inSentence: bool)
    decreases |parts|
  {
    |parts| == 0 ||
    ((inSentence ==> TokensIn(tokenize(parts[0]), 0, |parts[0]|)) &&
     WellTokenized(parts[1..], tokenize, !inSentence))
  }

  /** The parts loop of one document `txt` over the remaining `parts`, whose
      first character is at document offset `idx`, with the sentence counter
      at `sid`. Parts alternate between sentence text (`inSentence`, the even
      positions of the split) and separators; the counter runs on across the
      parts of the document. When every sentence-bearing part is tokenised
      inside its own bounds, the sentences come out in document order: each
      lies in the remaining parts and ends at or before the next one begins. */
  function DocFrom<D(==)>(parts: seq<string>, docId: D, txt: string, tokenize: string -> seq<Token>, size: int,
                          inSentence: bool, idx: int, sid: int)
    : (r: Result<seq<Sentence<D>>, SentencizeError>)
    ensures r.Failure? <==> size == 0 && SentencePartRemains(|parts|, inSentence)
    ensures r.Success? ==> Numbered(r.value, docId, txt, sid)
    ensures r.Success? && WellTokenized(parts, tokenize, inSentence) ==>
      Laid(r.value, idx, idx + TotalLength(parts))
    ensures r.Success? ==> RowsAt(r.value, parts, tokenize, size, inSentence, idx, Origins(parts, tokenize, size, inSentence))
    decreases |parts|
  {
    if |parts| == 0 then Success([])
    else
      var mid := idx + |parts[0]|;
      if !inSentence then
        var rest := DocFrom(parts[1..], docId, txt, tokenize, size, true, mid, sid);
        SeparatorLaid(parts, tokenize, rest, idx);
        if rest.Success? then
          OriginsCons([], rest.value, parts, tokenize, size, false, idx);
          assert [] + rest.value == rest.value;
          rest
        else rest
      else if size == 0 then
        Failure(ZeroStep)
      else
        var here := PartHere(parts[0], docId, txt, tokenize, size, idx, sid);
        var rest := DocFrom(parts[1..], docId, txt, tokenize, size, false, mid, sid + |here|);
        if rest.Failure? then rest
        else
          NumberedConcat(here, rest.value, docId, txt, sid);
          SentencePartLaid(parts, docId, txt, tokenize, size, idx, sid, rest.value);
          PartHereRows(parts, docId, txt, tokenize, size, idx, sid);
          OriginsCons(here, rest.value, parts, tokenize, size, true, idx);
          Success(here + rest.value)
  }

  /** A separator part moves the layout of the parts after it to start at
      the separator. */
  lemma SeparatorLaid<D>(parts: seq<string>, tokenize: string -> seq<Token>,
                         rest: Result<seq<Sentence<D>>, SentencizeError>, idx: int)
    requires |parts| > 0
    requires rest.Success? && WellTokenized(parts[1..], tokenize, true) ==>
      Laid(rest.value, idx + |parts[0]|, idx + |parts[0]| + TotalLength(parts[1..]))
    ensures rest.Success? && WellTokenized(parts, tokenize, false) ==>
      Laid(rest.value, idx, idx + TotalLength(parts))
  {
    if rest.Success? && WellTokenized(parts, tokenize, false) {
      LaidWiden(rest.value, idx + |parts[0]|, idx + TotalLength(parts), idx);
    }
  }

  /** The rows of a sentence part, followed by the rows of the parts after
      it laid out from its end, are laid out from its start. */
  lemma SentencePartLaid<D>(parts: seq<string>, docId: D, txt: string, tokenize: string -> seq<Token>, size: int,
                            idx: int, sid: int, rest: seq<Sentence<D>>)
    requires |parts| > 0 && size != 0
    requires WellTokenized(parts[1..], tokenize, false) ==>
      Laid(rest, idx + |parts[0]|, idx + |parts[0]| + TotalLength(parts[1..]))
    ensures WellTokenized(parts, tokenize, true) ==>
      Laid(PartHere(parts[0], docId, txt, tokenize, size, idx, sid) + rest, idx, idx + TotalLength(parts))
  {
    if WellTokenized(parts, tokenize, true) {
      TotalLengthNonNegative(parts[1..]);
      PartHereLayout(parts[0], docId, txt, tokenize, size, idx, sid);
      LaidAppend(PartHere(parts[0], docId, txt, tokenize, size, idx, sid), rest,
                 idx, idx + |parts[0]|, idx + TotalLength(parts));
    }
  }

  lemma PartHereLayout<D>(part: string, docId: D, txt: string, tokenize: string -> seq<Token>, size: int,
                          idx: int, sid: int)
    requires size != 0 && TokensIn(tokenize(part), 0, |part|)
    ensures Laid(PartHere(part, docId, txt, tokenize, size, idx, sid), idx, idx + |part|)
  {
    var ts := tokenize(part);
    var cs := Chunks(|ts|, size).value;
    PartHereSpans(part, docId, txt, tokenize, size, idx, sid);
    ShiftedChunksLaid(PartHere(part, docId, txt, tokenize, size, idx, sid), ts, cs, |part|, idx);
  }

  /** The rows of a part span its chunks, which tile its tokens. */
  lemma PartHereSpans<D>(part: string, docId: D, txt: string, tokenize: string -> seq<Token>, size: int,
                         idx: int, sid: int)
    requires size != 0
    ensures var ts := tokenize(part);
      var cs := Chunks(|ts|, size).value;
      var r := PartHere(part, docId, txt, tokenize, size, idx, sid);
      Tiles(cs, |ts|) && |r| == |cs| && SpansChunks(r, Shift(ts, idx), cs)
  {
  }

  /** Rows spanning the chunks of tokens lying in [0, hi), moved by `idx`,
      lie in [idx, idx + hi). */
  lemma ShiftedChunksLaid<D>(r: seq<Sentence<D>>, ts: seq<Token>, cs: seq<Chunk>, hi: int, idx: int)
    requires Tiles(cs, |ts|) && TokensIn(ts, 0, hi) && |r| == |cs|
    requires SpansChunks(r, Shift(ts, idx), cs)
    ensures Laid(r, idx, idx + hi)
  {
    ShiftTokensIn(ts, 0, hi, idx);
    ChunkBoundsLaid(r, Shift(ts, idx), cs, idx, idx + hi);
  }

  /** Rows numbered on from `sid`, followed by rows numbered on from where
      they stop, are numbered on from `sid`. */
  lemma NumberedConcat<D>(a: seq<Sentence<D>>, b: seq<Sentence<D>>, docId: D, txt: string, sid: int)
    requires Numbered(a, docId, txt, sid) && Numbered(b, docId, txt, sid + |a|)
    ensures Numbered(a + b, docId, txt, sid)
  {
    var r := a + b;
    forall k | |a| <= k < |r|
      ensures r[k].docId == docId && r[k].sentenceId == sid + k
    {
      assert r[k] == b[k - |a|];
    }
  }

  /** Moving ordered tokens moves the range they lie in. */
  lemma ShiftTokensIn(ts: seq<Token>, lo: int, hi: int, idx: int)
    requires TokensIn(ts, lo, hi)
    ensures TokensIn(Shift(ts, idx), lo + idx, hi + idx)
  {
    var spans := Shift(ts, idx);
    forall a, b | 0 <= a < b < |spans|
      ensures spans[a].end <= spans[b].start
    {
      assert ts[a].end <= ts[b].start;
    }
  }

  lemma {:induction false} TotalLengthNonNegative(parts: seq<string>)
    ensures TotalLength(parts) >= 0
  {
    if |parts| > 0 {
      TotalLengthNonNegative(parts[1..]);
    }
  }

  lemma LaidWiden<D>(r: seq<Sentence<D>>, lo: int, hi: int, lo2: int)
    requires Laid(r, lo, hi) && lo2 <= lo
    ensures Laid(r, lo2, hi)
  {
  }

  lemma LaidAppend<D>(a: seq<Sentence<D>>, b: seq<Sentence<D>>, lo: int, mid: int, hi: int)
    requires Laid(a, lo, mid) && Laid(b, mid, hi) && lo <= mid <= hi
    ensures Laid(a + b, lo, hi)
  {
    var r := a + b;
    forall k | 0 <= k < |r|
      ensures lo <= r[k].begin < r[k].end <= hi
    {
      if k < |a| {
        assert r[k] == a[k];
      } else {
        assert r[k] == b[k - |a|];
      }
    }
    forall i, j | 0 <= i < j < |r|
      ensures r[i].end <= r[j].begin
    {
      if j < |a| {
        assert r[i] == a[i] && r[j] == a[j];
      } else if i < |a| {
        assert r[i] == a[i] && r[j] == b[j - |a|];
      } else {
        assert r[i] == b[i - |a|] && r[j] == b[j - |a|];
      }
    }
  }

  /** The sentences of one document: the parts loop with the counter
      starting at 0. */
  function DocSentences<D(==)>(doc: Doc<D>, split: string -> seq<string>, tokenize: string -> seq<Token>,
                               size: int): (r: Result<seq<Sentence<D>>, SentencizeError>)
    ensures r.Failure? <==> size == 0 && |split(doc.text)| > 0
    ensures r.Success? ==> forall k :: 0 <= k < |r.value| ==>
      r.value[k].docId == doc.docId && r.value[k].sentenceId == k
  {
    DocFrom(split(doc.text), doc.docId, doc.text, tokenize, size, true, 0, 0)
  }

  // ---------------------------------------------------------------------------
  // Where each sentence comes from
  // ---------------------------------------------------------------------------

  /** `row` is the sentence of chunk `c` of part `i`, a sentence-bearing part
      (an even position counted from a sentence part, `first` telling whether
      `parts[0]` is one): it runs from the start of the chunk's first token
      to the end of its last, moved by the part's document offset, which is
      `idx` plus the length of every part before it, separators included. */
  predicate ChunkRow<D>(row: Sentence<D>, parts: seq<string>, tokenize: string -> seq<Token>, size: int,
                        first: bool, idx: int, i: int, c: int)
  {
    && 0 <= i < |parts| && (i % 2 == 0) == first && size != 0
    && var ts := tokenize(parts[i]);
       var cs := Chunks(|ts|, size).value;
       var off := idx + TotalLength(parts[..i]);
       && 0 <= c < |cs|
       && row.begin == off + ts[cs[c].first].start
       && row.end == off + ts[cs[c].last - 1].end
  }

  /** `row` holds the text of part `i` from the start of the first token of
      chunk `c` to the end of its last token. */
  predicate ChunkText<D>(row: Sentence<D>, parts: seq<string>, tokenize: string -> seq<Token>, size: int,
                         i: int, c: int)
  {
    && 0 <= i < |parts| && size != 0
    && var ts := tokenize(parts[i]);
       var cs := Chunks(|ts|, size).value;
       && 0 <= c < |cs|
       && var a := ts[cs[c].first].start;
          var b := ts[cs[c].last - 1].end;
          0 <= a <= b <= |parts[i]| && row.text == parts[i][a..b]
  }

  /** Where a sentence comes from: chunk `chunk` of part `part`. */
  datatype Origin = Origin(part: int, chunk: int)

  /** The origins of the sentences of the parts loop, in output order: every
      chunk of every sentence-bearing part, part by part and chunk by chunk.
      Parts are counted from the first of `parts`. */
  function Origins(parts: seq<string>, tokenize: string -> seq<Token>, size: int, first: bool): seq<Origin>
    decreases |parts|
  {
    if |parts| == 0 then []
    else
      var n := if first && size != 0 then |Chunks(|tokenize(parts[0])|, size).value| else 0;
      seq(n, c => Origin(0, c)) + Later(Origins(parts[1..], tokenize, size, !first))
  }

  /** The same origins, counted from one part earlier. */
  function Later(o: seq<Origin>): (r: seq<Origin>)
    ensures |r| == |o|
  {
    seq(|o|, k requires 0 <= k < |o| => Origin(o[k].part + 1, o[k].chunk))
  }

  /** The rows `r` are, one for one, the sentences of the chunks `o`. */
  predicate RowsAt<D>(r: seq<Sentence<D>>, parts: seq<string>, tokenize: string -> seq<Token>, size: int,
                      first: bool, idx: int, o: seq<Origin>)
  {
    && |r| == |o|
    && forall k :: 0 <= k < |r| ==> ChunkRow(r[k], parts, tokenize, size, first, idx, o[k].part, o[k].chunk)
  }

  /** The sentences of the first part's chunks, followed by the sentences of
      the chunks of the other parts in the order of their origins, are the
      sentences of all parts in the order of theirs. */
  lemma OriginsCons<D>(here: seq<Sentence<D>>, rest: seq<Sentence<D>>, parts: seq<string>,
                       tokenize: string -> seq<Token>, size: int, first: bool, idx: int)
    requires |parts| > 0
    requires |here| == if first && size != 0 then |Chunks(|tokenize(parts[0])|, size).value| else 0
    requires forall k :: 0 <= k < |here| ==> ChunkRow(here[k], parts, tokenize, size, first, idx, 0, k)
    requires RowsAt(rest, parts[1..], tokenize, size, !first, idx + |parts[0]|, Origins(parts[1..], tokenize, size, !first))
    ensures RowsAt(here + rest, parts, tokenize, size, first, idx, Origins(parts, tokenize, size, first))
  {
    var o1 := Origins(parts[1..], tokenize, size, !first);
    assert Origins(parts, tokenize, size, first) == seq(|here|, c => Origin(0, c)) + Later(o1);
    RowsAtCons(here, rest, parts, tokenize, size, first, idx, o1);
  }

  /** The sentences of the first part's chunks, followed by the sentences of
      the chunks `o1` of the other parts, are the sentences of the chunks of
      all parts. */
  lemma RowsAtCons<D>(here: seq<Sentence<D>>, rest: seq<Sentence<D>>, parts: seq<string>,
                      tokenize: string -> seq<Token>, size: int, first: bool, idx: int, o1: seq<Origin>)
    requires |parts| > 0
    requires forall k :: 0 <= k < |here| ==> ChunkRow(here[k], parts, tokenize, size, first, idx, 0, k)
    requires RowsAt(rest, parts[1..], tokenize, size, !first, idx + |parts[0]|, o1)
    ensures RowsAt(here + rest, parts, tokenize, size, first, idx, seq(|here|, c => Origin(0, c)) + Later(o1))
  {
    var oh := seq(|here|, c => Origin(0, c));
    assert RowsAt(here, parts, tokenize, size, first, idx, oh);
    RowsAtNext(rest, parts, tokenize, size, first, idx, o1);
    RowsAtAppend(here, rest, parts, tokenize, size, first, idx, oh, Later(o1));
  }

  /** Rows of two runs of chunks, one after the other, are the rows of both
      runs. */
  lemma RowsAtAppend<D>(a: seq<Sentence<D>>, b: seq<Sentence<D>>, parts: seq<string>,
                        tokenize: string -> seq<Token>, size: int, first: bool, idx: int, oa: seq<Origin>, ob: seq<Origin>)
    requires RowsAt(a, parts, tokenize, size, first, idx, oa)
    requires RowsAt(b, parts, tokenize, size, first, idx, ob)
    ensures RowsAt(a + b, parts, tokenize, size, first, idx, oa + ob)
  {
    var r := a + b;
    var o := oa + ob;
    forall k | 0 <= k < |r|
      ensures ChunkRow(r[k], parts, tokenize, size, first, idx, o[k].part, o[k].chunk)
    {
      if k < |a| {
        assert r[k] == a[k] && o[k] == oa[k];
      } else {
        assert r[k] == b[k - |a|] && o[k] == ob[k - |a|];
      }
    }
  }

  /** The sentences of the chunks `o1` of the parts after the first are the
      sentences of the same chunks counted from the first part. */
  lemma RowsAtNext<D>(rest: seq<Sentence<D>>, parts: seq<string>, tokenize: string -> seq<Token>, size: int,
                      first: bool, idx: int, o1: seq<Origin>)
    requires |parts| > 0
    requires RowsAt(rest, parts[1..], tokenize, size, !first, idx + |parts[0]|, o1)
    ensures RowsAt(rest, parts, tokenize, size, first, idx, Later(o1))
  {
    var o := Later(o1);
    forall j | 0 <= j < |rest|
      ensures ChunkRow(rest[j], parts, tokenize, size, first, idx, o[j].part, o[j].chunk)
    {
      ChunkRowNext(rest[j], parts, tokenize, size, first, idx, o1[j].part, o1[j].chunk);
    }
  }

  /** The rows of the first part are the sentences of its chunks, in order. */
  lemma PartHereRows<D>(parts: seq<string>, docId: D, txt: string, tokenize: string -> seq<Token>, size: int,
                        idx: int, sid: int)
    requires |parts| > 0 && size != 0
    ensures var here := PartHere(parts[0], docId, txt, tokenize, size, idx, sid);
      && |here| == |Chunks(|tokenize(parts[0])|, size).value|
      && forall k :: 0 <= k < |here| ==> ChunkRow(here[k], parts, tokenize, size, true, idx, 0, k)
  {
    var ts := tokenize(parts[0]);
    PartHereSpans(parts[0], docId, txt, tokenize, size, idx, sid);
    FirstPartRows(PartHere(parts[0], docId, txt, tokenize, size, idx, sid), parts, tokenize, size, idx,
                  ts, Chunks(|ts|, size).value);
  }

  /** Rows spanning the chunks of the first part's tokens, moved by `idx`,
      are the sentences of those chunks. */
  lemma FirstPartRows<D>(r: seq<Sentence<D>>, parts: seq<string>, tokenize: string -> seq<Token>, size: int,
                         idx: int, ts: seq<Token>, cs: seq<Chunk>)
    requires |parts| > 0 && size != 0
    requires ts == tokenize(parts[0]) && cs == Chunks(|ts|, size).value
    requires Tiles(cs, |ts|) && |r| == |cs| && SpansChunks(r, Shift(ts, idx), cs)
    ensures forall k :: 0 <= k < |r| ==> ChunkRow(r[k], parts, tokenize, size, true, idx, 0, k)
  {
    var spans := Shift(ts, idx);
    assert TotalLength(parts[..0]) == 0;
    forall k | 0 <= k < |r|
      ensures ChunkRow(r[k], parts, tokenize, size, true, idx, 0, k)
    {
      assert r[k].begin == spans[cs[k].first].start == ts[cs[k].first].start + idx;
      assert r[k].end == spans[cs[k].last - 1].end == ts[cs[k].last - 1].end + idx;
    }
  }

  /** A sentence of part `i` of the parts after the first is the sentence of
      part `i + 1`, one part further from `idx`. */
  lemma ChunkRowNext<D>(row: Sentence<D>, parts: seq<string>, tokenize: string -> seq<Token>, size: int,
                        first: bool, idx: int, i: int, c: int)
    requires |parts| > 0
    requires ChunkRow(row, parts[1..], tokenize, size, !first, idx + |parts[0]|, i, c)
    ensures ChunkRow(row, parts, tokenize, size, first, idx, i + 1, c)
  {
    assert parts[1..][i] == parts[i + 1];
    assert parts[..i + 1][1..] == parts[1..][..i];
  }

  /** The parts put back together are as long as their lengths summed. */
  lemma {:induction false} ConcatLength(parts: seq<string>)
    ensures |Concat(parts)| == TotalLength(parts)
  {
    if |parts| > 0 {
      ConcatLength(parts[1..]);
    }
  }

  /** Part `i` sits in the concatenation right after the parts before it. */
  lemma {:induction false} ConcatAround(parts: seq<string>, i: nat)
    requires i < |parts|
    ensures Concat(parts) == Concat(parts[..i]) + parts[i] + Concat(parts[i + 1..])
  {
    if i > 0 {
      ConcatAround(parts[1..], i - 1);
      assert parts[1..][..i - 1] == parts[..i][1..];
      assert parts[1..][i - 1] == parts[i] && parts[1..][i..] == parts[i + 1..];
    }
  }

  /** The text of part `i` between `a` and `b` is the text of the whole
      between the same offsets moved by the length of the parts before it. */
  lemma ConcatSlice(parts: seq<string>, i: nat, a: int, b: int)
    requires i < |parts| && 0 <= a <= b <= |parts[i]|
    ensures var off := TotalLength(parts[..i]);
      0 <= off + a <= off + b <= |Concat(parts)| &&
      Concat(parts)[off + a..off + b] == parts[i][a..b]
  {
    ConcatAround(parts, i);
    ConcatLength(parts[..i]);
    ConcatLength(parts);
    var pre := Concat(parts[..i]);
    var whole := Concat(parts);
    assert whole[|pre|..|pre| + |parts[i]|] == parts[i];
  }

  /** A sentence-bearing part of well-tokenised parts has its tokens inside
      it. */
  lemma {:induction false} WellTokenizedAt(parts: seq<string>, tokenize: string -> seq<Token>, inSentence: bool, i: nat)
    requires WellTokenized(parts, tokenize, inSentence)
    requires i < |parts| && (i % 2 == 0) == inSentence
    ensures TokensIn(tokenize(parts[i]), 0, |parts[i]|)
  {
    if i > 0 {
      WellTokenizedAt(parts[1..], tokenize, !inSentence, i - 1);
      assert parts[1..][i - 1] == parts[i];
    }
  }

  /** When the parts put back together give the document, the sentences
      are, in order, one per chunk of every even-numbered part: each holds
      the text of its part from the chunk's first token to its last, at the
      part's document offset. They are numbered from 0, and each is the
      document slice at its own offsets. */
  lemma SentencesAreSlices<D>(doc: Doc<D>, split: string -> seq<string>, tokenize: string -> seq<Token>,
                              size: int)
    requires Concat(split(doc.text)) == doc.text
    requires WellTokenized(split(doc.text), tokenize, true)
    requires DocSentences(doc, split, tokenize, size).Success?
    ensures var r := DocSentences(doc, split, tokenize, size).value;
      var parts := split(doc.text);
      var o := Origins(parts, tokenize, size, true);
      && |r| == |o|
      && (forall k :: 0 <= k < |r| ==>
            && r[k].docId == doc.docId && r[k].sentenceId == k
            && 0 <= r[k].begin < r[k].end <= |doc.text|
            && r[k].text == doc.text[r[k].begin..r[k].end]
            && ChunkRow(r[k], parts, tokenize, size, true, 0, o[k].part, o[k].chunk)
            && ChunkText(r[k], parts, tokenize, size, o[k].part, o[k].chunk))
      && (forall i, j :: 0 <= i < j < |r| ==> r[i].end <= r[j].begin)
  {
    var parts := split(doc.text);
    var r := DocSentences(doc, split, tokenize, size).value;
    var o := Origins(parts, tokenize, size, true);
    ConcatLength(parts);
    assert Numbered(r, doc.docId, doc.text, 0);
    assert Laid(r, 0, |doc.text|);
    assert RowsAt(r, parts, tokenize, size, true, 0, o);
    forall k | 0 <= k < |r|
      ensures ChunkText(r[k], parts, tokenize, size, o[k].part, o[k].chunk)
    {
      RowText(r[k], doc.text, parts, tokenize, size, o[k].part, o[k].chunk);
    }
  }

  /** A non-empty sentence of chunk `c` of part `i`, holding the document
      slice at its offsets, holds the part's text under its tokens. */
  lemma RowText<D>(row: Sentence<D>, txt: string, parts: seq<string>, tokenize: string -> seq<Token>, size: int,
                   i: int, c: int)
    requires Concat(parts) == txt && WellTokenized(parts, tokenize, true)
    requires ChunkRow(row, parts, tokenize, size, true, 0, i, c)
    requires 0 <= row.begin < row.end <= |txt| && row.text == txt[row.begin..row.end]
    ensures ChunkText(row, parts, tokenize, size, i, c)
  {
    var ts := tokenize(parts[i]);
    var cs := Chunks(|ts|, size).value;
    WellTokenizedAt(parts, tokenize, true, i);
    var a := ts[cs[c].first].start;
    var b := ts[cs[c].last - 1].end;
    assert 0 <= a && b <= |parts[i]|;
    ConcatSlice(parts, i, a, b);
  }

  // ---------------------------------------------------------------------------
  // The table of documents
  // ---------------------------------------------------------------------------

  /** The numbering of the output table: a row either starts a document's
      sentences at 0 or follows the row before it, of the same document, with
      the next number. */
  predicate NumberedRuns<D(==)>(s: seq<Sentence<D>>)
  {
    && (|s| > 0 ==> s[0].sentenceId == 0)
    && (forall k :: 0 < k < |s| && s[k].sentenceId != 0 ==>
          s[k - 1].docId == s[k].docId && s[k - 1].sentenceId == s[k].sentenceId - 1)
  }

  lemma NumberedAppend<D>(a: seq<Sentence<D>>, b: seq<Sentence<D>>)
    requires NumberedRuns(a) && NumberedRuns(b)
    ensures NumberedRuns(a + b)
  {
    var r := a + b;
    forall k | 0 < k < |r| && r[k].sentenceId != 0
      ensures r[k - 1].docId == r[k].docId && r[k - 1].sentenceId == r[k].sentenceId - 1
    {
      if k < |a| {
        assert r[k] == a[k] && r[k - 1] == a[k - 1];
      } else {
        assert r[k] == b[k - |a|];
        assert k - |a| != 0;
        assert r[k - 1] == b[k - 1 - |a|];
      }
    }
  }

  /** The rows of one document, numbered from 0, form one numbered run. */
  lemma CountedRuns<D>(r: seq<Sentence<D>>, docId: D)
    requires forall k :: 0 <= k < |r| ==> r[k].docId == docId && r[k].sentenceId == k
    ensures NumberedRuns(r)
  {
  }

  /** Some document of `docs` splits into at least one part. */
  predicate AnyParts<D>(docs: seq<Doc<D>>, split: string -> seq<string>)
  {
    exists k :: 0 <= k < |docs| && |split(docs[k].text)| > 0
  }

  lemma AnyPartsStep<D>(docs: seq<Doc<D>>, split: string -> seq<string>)
    requires |docs| > 0
    ensures AnyParts(docs, split) <==> |split(docs[0].text)| > 0 || AnyParts(docs[1..], split)
  {
    if AnyParts(docs, split) {
      var k :| 0 <= k < |docs| && |split(docs[k].text)| > 0;
      if k > 0 {
        assert docs[1..][k - 1] == docs[k];
      }
    }
    if AnyParts(docs[1..], split) {
      var k :| 0 <= k < |docs[1..]| && |split(docs[1..][k].text)| > 0;
      assert docs[1..][k] == docs[k + 1];
    }
  }

  /** `row` belongs to one of the documents of `docs`. */
  predicate FromSomeDoc<D(==)>(row: Sentence<D>, docs: seq<Doc<D>>)
  {
    exists d :: 0 <= d < |docs| && row.docId == docs[d].docId
  }

  /** Every row belongs to one of the documents of `docs`. */
  predicate RowsFrom<D(==)>(r: seq<Sentence<D>>, docs: seq<Doc<D>>)
  {
    forall k :: 0 <= k < |r| ==> FromSomeDoc(r[k], docs)
  }

  lemma RowsFromStep<D>(docs: seq<Doc<D>>, first: seq<Sentence<D>>, rest: seq<Sentence<D>>)
    requires |docs| > 0
    requires forall k :: 0 <= k < |first| ==> first[k].docId == docs[0].docId
    requires RowsFrom(rest, docs[1..])
    ensures RowsFrom(first + rest, docs)
  {
    var r := first + rest;
    forall k | 0 <= k < |r|
      ensures FromSomeDoc(r[k], docs)
    {
      if k < |first| {
        assert r[k] == first[k] && r[k].docId == docs[0].docId;
      } else {
        assert r[k] == rest[k - |first|];
        assert FromSomeDoc(rest[k - |first|], docs[1..]);
        var d :| 0 <= d < |docs[1..]| && rest[k - |first|].docId == docs[1..][d].docId;
        assert docs[1..][d] == docs[d + 1];
      }
    }
  }

  /** mimic_sentencize_ on one process: the documents in order, each one's
      sentences numbered from 0. */
  function MimicSentencize<D(==)>(docs: seq<Doc<D>>, split: string -> seq<string>, tokenize: string -> seq<Token>,
                                  size: int): (r: Result<seq<Sentence<D>>, SentencizeError>)
    ensures r.Failure? <==> size == 0 && AnyParts(docs, split)
    ensures r.Success? ==> NumberedRuns(r.value) && RowsFrom(r.value, docs)
  {
    if |docs| == 0 then Success([])
    else
      var first := DocSentences(docs[0], split, tokenize, size);
      var rest := MimicSentencize(docs[1..], split, tokenize, size);
      AnyPartsStep(docs, split);
      if first.Failure? then Failure(first.error)
      else if rest.Failure? then Failure(rest.error)
      else
        CountedRuns(first.value, docs[0].docId);
        NumberedAppend(first.value, rest.value);
        RowsFromStep(docs, first.value, rest.value);
        Success(first.value + rest.value)
  }
}
