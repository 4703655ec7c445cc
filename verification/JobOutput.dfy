/** The writer that turns a command's output, arriving in arbitrary chunks, into
    job lines. Both the action runner and the updater have one. */
module JobOutput {

  type Byte = b: int | 0 <= b < 256

  type Bytes = seq<Byte>

  const LF: Byte := 10
  const CR: Byte := 13

  /** Any trimming of a line; nothing is left of an empty one. */
  type Trim = f: Bytes -> Bytes | f([]) == [] witness (s: Bytes) => s

  predicate IsBreak(b: Byte) { b == 10 || b == 13 }

  /** The pieces of a stream between line breaks: one more than breaks. */
  function Pieces(s: Bytes): (r: seq<Bytes>)
    ensures |r| >= 1
  {
    if s == [] then [[]]
    else
      var r := Pieces(s[1..]);
      if IsBreak(s[0]) then [[]] + r else Extended(s[0], r)
  }

  function Extended(b: Byte, pieces: seq<Bytes>): (r: seq<Bytes>)
    requires pieces != []
    ensures |r| == |pieces|
  {
    [[b] + pieces[0]] + pieces[1..]
  }

  /** The trimmed pieces, without the blank ones. */
  function Kept(pieces: seq<Bytes>, trim: Trim): seq<Bytes> {
    if pieces == [] then []
    else (if trim(pieces[0]) == [] then [] else [trim(pieces[0])]) + Kept(pieces[1..], trim)
  }

  /** What a whole stream amounts to. */
  function Lines(s: Bytes, trim: Trim): seq<Bytes> { Kept(Pieces(s), trim) }

  /** The part after the last line break, and the lines before it. */
  function Rest(s: Bytes): Bytes { Pieces(s)[|Pieces(s)| - 1] }

  function Complete(s: Bytes, trim: Trim): seq<Bytes> { Kept(Pieces(s)[..|Pieces(s)| - 1], trim) }

  // ----------------------------------------------------------- the writer

  /** strings.ReplaceAll of CR LF by LF. */
  function JoinBreaks(s: Bytes): Bytes {
    if s == [] then []
    else if |s| >= 2 && s[0] == CR && s[1] == LF then [LF] + JoinBreaks(s[2..])
    else [s[0]] + JoinBreaks(s[1..])
  }

  /** strings.ReplaceAll of CR by LF. */
  function CRtoLF(s: Bytes): (r: Bytes)
    ensures |r| == |s| && CR !in r
  {
    if s == [] then [] else [if s[0] == CR then LF else s[0]] + CRtoLF(s[1..])
  }

  /** strings.IndexByte for LF. */
  function IndexLF(s: Bytes): (r: int)
    ensures -1 <= r < |s|
    ensures r >= 0 ==> s[r] == LF && LF !in s[..r]
    ensures r < 0 ==> LF !in s
  {
    if s == [] then -1
    else if s[0] == LF then 0
    else
      var r := IndexLF(s[1..]);
      if r < 0 then -1
      else
        assert s[..r + 1] == [s[0]] + s[1..][..r];
        r + 1
  }

  class JobWriter {
    const trim: Trim
    var pending: Bytes
    var output: seq<Bytes>

    constructor (trim: Trim)
      ensures this.trim == trim && pending == [] && output == []
    {
      this.trim := trim;
      pending, output := [], [];
    }

    method Write(data: Bytes) returns (written: nat)
      modifies `pending, `output
      ensures written == |data|
      ensures pending == Rest(old(pending) + data)
      ensures output == old(output) + Complete(old(pending) + data, trim)
    {
      hide Rest, Complete, Kept, Pieces, JoinBreaks, CRtoLF, IndexLF;
      ghost var whole := pending + data;
      pending := pending + data;
      pending := JoinBreaks(pending);
      pending := CRtoLF(pending);
      NormalisedBreaks(whole, trim);
      while true
        invariant CR !in pending
        invariant Rest(pending) == Rest(whole)
        invariant output + Complete(pending, trim) == old(output) + Complete(whole, trim)
        decreases |pending|
      {
        var index := IndexLF(pending);
        if index < 0 { break; }
        FirstLine(pending, index, trim);
        var line := trim(pending[..index]);
        pending := pending[index + 1..];
        if line != [] { output := output + [line]; }
      }
      NoBreak(pending, trim);
      return |data|;
    }

    method Flush()
      modifies `pending, `output
      ensures pending == []
      ensures output == old(output) + OneLine(trim(old(pending)))
    {
      var line := trim(pending);
      if line != [] { output := output + [line]; }
      pending := [];
    }
  }

  lemma {:induction false} NoBreak(s: Bytes, trim: Trim)
    requires forall b <- s :: !IsBreak(b)
    ensures Pieces(s) == [s] && Rest(s) == s && Complete(s, trim) == []
  {
    if s != [] {
      NoBreak(s[1..], trim);
      assert [s[0]] + s[1..] == s;
    }
  }

  lemma {:induction false} PiecesAtBreak(s: Bytes, index: nat)
    requires index < |s| && IsBreak(s[index]) && forall b <- s[..index] :: !IsBreak(b)
    ensures Pieces(s) == [s[..index]] + Pieces(s[index + 1..])
  {
    if index > 0 {
      assert s[0] in s[..index];
      assert s[1..][..index - 1] == s[..index][1..];
      PiecesAtBreak(s[1..], index - 1);
      assert s[1..][index..] == s[index + 1..];
      assert [s[0]] + s[1..][..index - 1] == s[..index];
    }
  }

  function OneLine(line: Bytes): seq<Bytes> { if line == [] then [] else [line] }

  lemma FirstLine(s: Bytes, index: nat, trim: Trim)
    requires CR !in s && index < |s| && s[index] == LF && LF !in s[..index]
    ensures Rest(s) == Rest(s[index + 1..])
    ensures Complete(s, trim) == OneLine(trim(s[..index])) + Complete(s[index + 1..], trim)
  {
    assert forall b <- s[..index] :: b in s;
    PiecesAtBreak(s, index);
    var r := Pieces(s[index + 1..]);
    assert Pieces(s)[..|r|] == [s[..index]] + r[..|r| - 1];
    KeptConcat([s[..index]], r[..|r| - 1], trim);
  }

  lemma {:induction false} KeptConcat(a: seq<Bytes>, b: seq<Bytes>, trim: Trim)
    ensures Kept(a + b, trim) == Kept(a, trim) + Kept(b, trim)
  {
    if a == [] {
      assert a + b == b;
    } else {
      assert (a + b)[1..] == a[1..] + b;
      KeptConcat(a[1..], b, trim);
    }
  }

  // --------------------------------------------------- rewriting the breaks

  function Body(pieces: seq<Bytes>, trim: Trim): seq<Bytes>
    requires pieces != []
  {
    Kept(pieces[..|pieces| - 1], trim)
  }

  /** The same first and last piece, and the same kept ones between. */
  ghost predicate Same(p: seq<Bytes>, q: seq<Bytes>, trim: Trim) {
    && p != [] && q != [] && p[0] == q[0] && p[|p| - 1] == q[|q| - 1]
    && (|p| == 1 <==> |q| == 1)
    && (|p| > 1 && |q| > 1 ==> Body(p[1..], trim) == Body(q[1..], trim))
  }

  lemma SameBody(p: seq<Bytes>, q: seq<Bytes>, trim: Trim)
    requires Same(p, q, trim)
    ensures Body(p, trim) == Body(q, trim)
    ensures Same([[]] + p, [[]] + q, trim)
  {
    assert ([[]] + p)[1..] == p && ([[]] + q)[1..] == q;
    if |p| > 1 {
      assert p[..|p| - 1][1..] == p[1..][..|p[1..]| - 1];
      assert q[..|q| - 1][1..] == q[1..][..|q[1..]| - 1];
    }
  }

  lemma ExtraBlank(p: seq<Bytes>, trim: Trim)
    requires p != []
    ensures Same([[]] + p, [[], []] + p, trim)
  {
    var q := [[], []] + p;
    assert ([[]] + p)[1..] == p;
    assert q[1..][..|p|] == [[]] + p[..|p| - 1];
    assert ([[]] + p[..|p| - 1])[1..] == p[..|p| - 1];
  }

  lemma SameExtended(b: Byte, p: seq<Bytes>, q: seq<Bytes>, trim: Trim)
    requires Same(p, q, trim)
    ensures Same(Extended(b, p), Extended(b, q), trim)
  {
    assert Extended(b, p)[1..] == p[1..] && Extended(b, q)[1..] == q[1..];
    hide Body;
  }

  lemma PiecesAfter(b: Byte, s: Bytes)
    ensures Pieces([b] + s) == if IsBreak(b) then [[]] + Pieces(s) else Extended(b, Pieces(s))
  {
    assert ([b] + s)[1..] == s;
  }

  lemma Rewritten(b: Byte, s: Bytes)
    ensures CRtoLF([b] + s) == [if b == CR then LF else b] + CRtoLF(s)
    ensures !(b == CR && s != [] && s[0] == LF) ==> JoinBreaks([b] + s) == [b] + JoinBreaks(s)
    ensures JoinBreaks([CR, LF] + s) == [LF] + JoinBreaks(s)
  {
    assert ([b] + s)[1..] == s && ([CR, LF] + s)[2..] == s;
  }

  function Rewrite(s: Bytes): Bytes { CRtoLF(JoinBreaks(s)) }

  lemma NormalisedPair(t: Bytes, trim: Trim)
    requires Same(Pieces(Rewrite(t)), Pieces(t), trim)
    ensures Same(Pieces(Rewrite([CR, LF] + t)), Pieces([CR, LF] + t), trim)
  {
    hide Same, JoinBreaks, CRtoLF, Pieces;
    Rewritten(LF, t);
    Rewritten(LF, JoinBreaks(t));
    PiecesAfter(LF, Rewrite(t));
    PiecesAfter(CR, [LF] + t);
    PiecesAfter(LF, t);
    assert [CR, LF] + t == [CR] + ([LF] + t);
    BlankDropped(Pieces(Rewrite(t)), Pieces(t), trim);
  }

  lemma NormalisedByte(b: Byte, t: Bytes, trim: Trim)
    requires Same(Pieces(Rewrite(t)), Pieces(t), trim)
    requires !(b == CR && t != [] && t[0] == LF)
    ensures Same(Pieces(Rewrite([b] + t)), Pieces([b] + t), trim)
  {
    hide Same, JoinBreaks, CRtoLF, Pieces, Extended;
    Rewritten(b, t);
    Rewritten(b, JoinBreaks(t));
    PiecesAfter(if b == CR then LF else b, Rewrite(t));
    PiecesAfter(b, t);
    SameBody(Pieces(Rewrite(t)), Pieces(t), trim);
    SameExtended(b, Pieces(Rewrite(t)), Pieces(t), trim);
  }

  /** Rewriting the breaks drops blank pieces only. */
  lemma {:induction false} NormalisedPieces(s: Bytes, trim: Trim)
    ensures Same(Pieces(Rewrite(s)), Pieces(s), trim)
    decreases |s|
  {
    if s != [] {
      if |s| >= 2 && s[0] == CR && s[1] == LF {
        NormalisedPieces(s[2..], trim);
        NormalisedPair(s[2..], trim);
        assert s == [CR, LF] + s[2..];
      } else {
        NormalisedPieces(s[1..], trim);
        NormalisedByte(s[0], s[1..], trim);
        assert s == [s[0]] + s[1..];
      }
      hide Same, JoinBreaks, CRtoLF, Pieces;
    }
  }

  lemma BlankDropped(p: seq<Bytes>, q: seq<Bytes>, trim: Trim)
    requires Same(p, q, trim)
    ensures Same([[]] + p, [[]] + ([[]] + q), trim)
  {
    SameBody(p, q, trim);
    ExtraBlank(q, trim);
    assert [[], []] + q == [[]] + ([[]] + q);
    hide Body;
  }

  lemma NormalisedBreaks(s: Bytes, trim: Trim)
    ensures var n := Rewrite(s); Rest(n) == Rest(s) && Complete(n, trim) == Complete(s, trim)
  {
    NormalisedPieces(s, trim);
    SameBody(Pieces(Rewrite(s)), Pieces(s), trim);
  }

  // ------------------------------------------------------------- chunking

  lemma {:induction false} PiecesConcat(a: Bytes, b: Bytes)
    ensures Pieces(a + b) == Front(Pieces(a)) + Pieces(Rest(a) + b)
  {
    if a == [] {
      assert a + b == b == Pieces(a)[0] + b;
    } else {
      var t := a[1..];
      PiecesConcat(t, b);
      hide Pieces, Rest;
      assert a == [a[0]] + t && a + b == [a[0]] + (t + b);
      OneMore(a[0], t, b);
    }
  }

  function Front(pieces: seq<Bytes>): seq<Bytes>
    requires pieces != []
  {
    pieces[..|pieces| - 1]
  }

  lemma OneMore(c: Byte, t: Bytes, b: Bytes)
    requires Pieces(t + b) == Front(Pieces(t)) + Pieces(Rest(t) + b)
    ensures Pieces([c] + (t + b)) == Front(Pieces([c] + t)) + Pieces(Rest([c] + t) + b)
  {
    hide Pieces, Extended;
    PiecesAfter(c, t);
    PiecesAfter(c, t + b);
    var p, last := Pieces(t), Rest(t);
    if IsBreak(c) {
      assert Front([[]] + p) == [[]] + Front(p);
    } else {
      PiecesAfter(c, last + b);
      assert [c] + (last + b) == ([c] + last) + b;
      ExtendedConcat(c, p, Pieces(last + b));
    }
  }

  lemma ExtendedConcat(b: Byte, p: seq<Bytes>, q: seq<Bytes>)
    requires p != [] && q != []
    ensures var e := Extended(b, p);
      if |p| == 1 then Extended(b, p[..|p| - 1] + q) == Extended(b, q) && e == [[b] + p[0]]
      else Extended(b, p[..|p| - 1] + q) == e[..|p| - 1] + q && e[|p| - 1] == p[|p| - 1]
  {
    if |p| == 1 { assert p[..0] + q == q; }
  }

  /** The state of a writer after a list of chunks. */
  datatype Writer = Writer(pending: Bytes, output: seq<Bytes>)

  function AfterWrite(w: Writer, data: Bytes, trim: Trim): Writer {
    Writer(Rest(w.pending + data), w.output + Complete(w.pending + data, trim))
  }

  function AfterWrites(w: Writer, chunks: seq<Bytes>, trim: Trim): Writer
    decreases |chunks|
  {
    if chunks == [] then w else AfterWrites(AfterWrite(w, chunks[0], trim), chunks[1..], trim)
  }

  function AfterFlush(w: Writer, trim: Trim): Writer {
    Writer([], w.output + OneLine(trim(w.pending)))
  }

  function Joined(chunks: seq<Bytes>): Bytes {
    if chunks == [] then [] else chunks[0] + Joined(chunks[1..])
  }

  lemma {:induction false} RestHasNoBreak(s: Bytes)
    ensures forall b <- Rest(s) :: !IsBreak(b)
  {
    if s != [] { RestHasNoBreak(s[1..]); }
  }

  lemma WriteKeepsTheStream(w: Writer, data: Bytes, later: Bytes, trim: Trim)
    ensures var next := AfterWrite(w, data, trim);
      w.output + Lines(w.pending + data + later, trim) == next.output + Lines(next.pending + later, trim)
  {
    var s := w.pending + data;
    PiecesConcat(s, later);
    var p := Pieces(s);
    KeptConcat(p[..|p| - 1], Pieces(Rest(s) + later), trim);
  }

  /** However the stream is cut into writes, the lines after the flush are the
      trimmed non-blank pieces of the whole stream. */
  lemma {:induction false} ChunksDoNotMatter(w: Writer, chunks: seq<Bytes>, trim: Trim)
    requires forall b <- w.pending :: !IsBreak(b)
    ensures AfterFlush(AfterWrites(w, chunks, trim), trim)
         == Writer([], w.output + Lines(w.pending + Joined(chunks), trim))
    decreases |chunks|
  {
    hide Rest, Complete, Lines, Kept, AfterFlush, IsBreak;
    if chunks == [] {
      FlushedLines(w, trim);
      assert w.pending + Joined(chunks) == w.pending;
    } else {
      var next, later := AfterWrite(w, chunks[0], trim), Joined(chunks[1..]);
      RestHasNoBreak(w.pending + chunks[0]);
      ChunksDoNotMatter(next, chunks[1..], trim);
      WriteKeepsTheStream(w, chunks[0], later, trim);
      assert w.pending + (chunks[0] + later) == w.pending + chunks[0] + later;
    }
  }

  lemma FlushedLines(w: Writer, trim: Trim)
    requires forall b <- w.pending :: !IsBreak(b)
    ensures AfterFlush(w, trim) == Writer([], w.output + Lines(w.pending, trim))
  {
    NoBreak(w.pending, trim);
  }

  /** Two ways of cutting the same output give the same job lines. */
  lemma TwoCutsAgree(a: seq<Bytes>, b: seq<Bytes>, trim: Trim)
    requires Joined(a) == Joined(b)
    ensures AfterFlush(AfterWrites(Writer([], []), a, trim), trim) == AfterFlush(AfterWrites(Writer([], []), b, trim), trim)
    ensures AfterFlush(AfterWrites(Writer([], []), a, trim), trim).output == Lines(Joined(a), trim)
  {
    ChunksDoNotMatter(Writer([], []), a, trim);
    ChunksDoNotMatter(Writer([], []), b, trim);
    assert [] + Joined(a) == Joined(a);
  }
}
