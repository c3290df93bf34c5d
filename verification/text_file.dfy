/** ATextFile: a whole file held in memory and split into lines at the
    terminator of one new-line style. The split is what the big text file's
    positions are measured against, so the scanning step `LineFeedAt` and the
    reference splitting `Pieces`/`Lines` are shared with `BigTextFile`. */
module TextFile {
  import opened Wrappers
  import opened Seqs
  import BinaryFile

  /** The three new-line styles: CR, LF and CR LF. */
  datatype NewLine = ClassicMac | Unix | Windows

  const CR: bv8 := 13
  const LF: bv8 := 10

  /** The byte sequence that ends a line in style `nl`. */
  function Terminator(nl: NewLine): (t: seq<bv8>)
    ensures 1 <= |t| <= 2
    ensures t[|t| - 1] == (if nl == ClassicMac then CR else LF)
    ensures nl == Windows <==> |t| == 2
  {
    match nl
    case ClassicMac => [CR]
    case Unix => [LF]
    case Windows => [CR, LF]
  }

  /** IsLineFeed: whether a terminator starts at `idx`, and the index of its
      last byte (the index itself when there is none). A CR that is the final
      byte, or that is not followed by LF, is not a Windows terminator. */
  function LineFeedAt(buf: seq<bv8>, idx: nat, nl: NewLine): (r: (bool, nat))
    requires idx < |buf|
    ensures r.0 <==> OccursAt(buf, Terminator(nl), idx)
    ensures r.1 == if r.0 then idx + |Terminator(nl)| - 1 else idx
    ensures r.1 < |buf|
  {
    match nl
    case ClassicMac => (buf[idx] == CR, idx)
    case Unix => (buf[idx] == LF, idx)
    case Windows =>
      if buf[idx] != CR then (false, idx)
      else if idx == |buf| - 1 then (false, idx)
      else if buf[idx + 1] == LF then (true, idx + 1)
      else (false, idx)
  }

  /** Prepending a byte that does not start a terminator keeps a piece free
      of terminators. */
  lemma FreeCons(c: bv8, x: seq<bv8>, t: seq<bv8>)
    requires |t| > 0
    requires Free(x, t)
    requires !OccursAt([c] + x, t, 0)
    ensures Free([c] + x, t)
  {
    var y := [c] + x;
    forall j | 0 <= j <= |y|
      ensures !OccursAt(y, t, j)
    {
      if j > 0 && OccursAt(y, t, j) {
        assert y[j..j + |t|] == x[j - 1..j - 1 + |t|];
        assert OccursAt(x, t, j - 1);
      }
    }
  }

  /** The text from `idx` on cut at every terminator the left-to-right scan
      meets; the last piece is whatever follows the last terminator. This is
      the reference splitting both text-file classes are measured against.
      `PiecesFree` shows that no piece contains a terminator. */
  function Pieces(buf: seq<bv8>, nl: NewLine, idx: nat): (r: seq<seq<bv8>>)
    requires idx <= |buf|
    ensures |r| >= 1
    decreases |buf| - idx
  {
    if idx == |buf| then [[]]
    else
      var (isLF, last) := LineFeedAt(buf, idx, nl);
      if isLF then [[]] + Pieces(buf, nl, last + 1)
      else
        var rest := Pieces(buf, nl, idx + 1);
        [[buf[idx]] + rest[0]] + rest[1..]
  }

  /** Joining the pieces with the terminator gives the text back. */
  lemma {:induction false} PiecesJoin(buf: seq<bv8>, nl: NewLine, idx: nat)
    requires idx <= |buf|
    ensures Join(Pieces(buf, nl, idx), Terminator(nl)) == buf[idx..]
    decreases |buf| - idx
  {
    if idx < |buf| {
      var (isLF, last) := LineFeedAt(buf, idx, nl);
      if isLF {
        PiecesJoin(buf, nl, last + 1);
        JoinAfterTerminator(buf, nl, idx, last);
      } else {
        PiecesJoin(buf, nl, idx + 1);
        JoinAfterByte(buf, nl, idx);
      }
    }
  }

  /** Step of `PiecesJoin` over a terminator whose last byte is at `last`. */
  lemma JoinAfterTerminator(buf: seq<bv8>, nl: NewLine, idx: nat, last: nat)
    requires idx < |buf| && LineFeedAt(buf, idx, nl) == (true, last)
    requires Join(Pieces(buf, nl, last + 1), Terminator(nl)) == buf[last + 1..]
    ensures Join(Pieces(buf, nl, idx), Terminator(nl)) == buf[idx..]
  {
    var t := Terminator(nl);
    var rest := Pieces(buf, nl, last + 1);
    assert Pieces(buf, nl, idx) == [[]] + rest;
    JoinEmptyHead(rest, t);
    assert buf[idx..last + 1] == t;
    SliceSplit(buf, idx, last + 1);
  }

  /** Step of `PiecesJoin` over a byte that starts no terminator. */
  lemma JoinAfterByte(buf: seq<bv8>, nl: NewLine, idx: nat)
    requires idx < |buf| && !LineFeedAt(buf, idx, nl).0
    requires Join(Pieces(buf, nl, idx + 1), Terminator(nl)) == buf[idx + 1..]
    ensures Join(Pieces(buf, nl, idx), Terminator(nl)) == buf[idx..]
  {
    var rest := Pieces(buf, nl, idx + 1);
    assert Pieces(buf, nl, idx) == [[buf[idx]] + rest[0]] + rest[1..];
    JoinPrepend([buf[idx]], rest, Terminator(nl));
    SliceSplit(buf, idx, idx + 1);
    assert buf[idx..idx + 1] == [buf[idx]];
  }

  /** No piece of `r` contains `t`. */
  predicate AllFree(r: seq<seq<bv8>>, t: seq<bv8>) {
    forall i :: 0 <= i < |r| ==> Free(r[i], t)
  }

  /** No piece contains the terminator. */
  lemma {:induction false} PiecesFree(buf: seq<bv8>, nl: NewLine, idx: nat)
    requires idx <= |buf|
    ensures AllFree(Pieces(buf, nl, idx), Terminator(nl))
    decreases |buf| - idx
  {
    var t := Terminator(nl);
    var r := Pieces(buf, nl, idx);
    if idx == |buf| {
      assert Free(r[0], t);
    } else {
      var (isLF, last) := LineFeedAt(buf, idx, nl);
      if isLF {
        PiecesFree(buf, nl, last + 1);
        var rest := Pieces(buf, nl, last + 1);
        assert r == [[]] + rest;
        assert Free(r[0], t);
        forall i | 0 < i < |r|
          ensures Free(r[i], t)
        {
          assert r[i] == rest[i - 1];
          assert Free(rest[i - 1], t);
        }
      } else {
        PiecesFree(buf, nl, idx + 1);
        var rest := Pieces(buf, nl, idx + 1);
        assert Free(rest[0], t);
        FirstPieceFree(buf, nl, idx);
        assert r == [[buf[idx]] + rest[0]] + rest[1..];
        forall i | 0 < i < |r|
          ensures Free(r[i], t)
        {
          assert r[i] == rest[i];
          assert Free(rest[i], t);
        }
      }
    }
  }

  /** A byte that starts no terminator keeps the first piece free. */
  lemma FirstPieceFree(buf: seq<bv8>, nl: NewLine, idx: nat)
    requires idx < |buf| && !OccursAt(buf, Terminator(nl), idx)
    requires Free(Pieces(buf, nl, idx + 1)[0], Terminator(nl))
    ensures Free([buf[idx]] + Pieces(buf, nl, idx + 1)[0], Terminator(nl))
  {
    var t := Terminator(nl);
    var c := buf[idx];
    var rest := Pieces(buf, nl, idx + 1);
    PiecesJoin(buf, nl, idx + 1);
    JoinHead(rest, t);
    assert rest[0] == buf[idx + 1..idx + 1 + |rest[0]|];
    assert [c] + rest[0] == buf[idx..idx + 1 + |rest[0]|];
    assert !OccursAt([c] + rest[0], t, 0);
    FreeCons(c, rest[0], t);
  }

  /** `t` occurs at the very end of `buf`, at or after `idx`. */
  predicate EndsAfter(buf: seq<bv8>, t: seq<bv8>, idx: nat) {
    idx + |t| <= |buf| && OccursAt(buf, t, |buf| - |t|)
  }

  /** The last piece of the scan from `idx` is empty. */
  predicate LastPieceIsEmpty(buf: seq<bv8>, nl: NewLine, idx: nat)
    requires idx <= |buf|
  {
    var p := Pieces(buf, nl, idx);
    p[|p| - 1] == []
  }

  /** The scan ends on a terminator exactly when the text ends with one. */
  lemma {:induction false} LastPieceEmpty(buf: seq<bv8>, nl: NewLine, idx: nat)
    requires idx < |buf|
    ensures LastPieceIsEmpty(buf, nl, idx) <==> EndsAfter(buf, Terminator(nl), idx)
    decreases |buf| - idx
  {
    var r := LineFeedAt(buf, idx, nl);
    if r.0 {
      var next := r.1 + 1;
      if next < |buf| {
        LastPieceEmpty(buf, nl, next);
      }
      LastPieceAfterTerminator(buf, nl, idx, next);
    } else {
      if idx + 1 < |buf| {
        LastPieceEmpty(buf, nl, idx + 1);
      }
      LastPieceAfterByte(buf, nl, idx);
    }
  }

  /** Step of `LastPieceEmpty` over a terminator ending before `next`. */
  lemma LastPieceAfterTerminator(buf: seq<bv8>, nl: NewLine, idx: nat, next: nat)
    requires idx < |buf| && OccursAt(buf, Terminator(nl), idx)
    requires next == idx + |Terminator(nl)|
    requires next < |buf| ==>
      (LastPieceIsEmpty(buf, nl, next) <==> EndsAfter(buf, Terminator(nl), next))
    ensures LastPieceIsEmpty(buf, nl, idx) <==> EndsAfter(buf, Terminator(nl), idx)
  {
    var t := Terminator(nl);
    var p := Pieces(buf, nl, idx);
    var rest := Pieces(buf, nl, next);
    assert LineFeedAt(buf, idx, nl) == (true, next - 1);
    assert p == [[]] + rest;
    assert p[|p| - 1] == rest[|rest| - 1];
    if next == |buf| {
      assert rest == [[]];
      assert OccursAt(buf, t, |buf| - |t|);
    } else if next + |t| > |buf| {
      assert |t| == 2 && next == |buf| - 1;
      assert buf[next - 1] == LF && t[0] == CR;
      assert !OccursAt(buf, t, |buf| - |t|);
    }
  }

  /** Step of `LastPieceEmpty` over a byte that starts no terminator. */
  lemma LastPieceAfterByte(buf: seq<bv8>, nl: NewLine, idx: nat)
    requires idx < |buf| && !OccursAt(buf, Terminator(nl), idx)
    requires idx + 1 < |buf| ==>
      (LastPieceIsEmpty(buf, nl, idx + 1) <==> EndsAfter(buf, Terminator(nl), idx + 1))
    ensures LastPieceIsEmpty(buf, nl, idx) <==> EndsAfter(buf, Terminator(nl), idx)
  {
    var t := Terminator(nl);
    var p := Pieces(buf, nl, idx);
    var rest := Pieces(buf, nl, idx + 1);
    if idx + 1 == |buf| {
      assert rest == [[]];
      assert p[0] == [buf[idx]] + [];
    } else if |rest| == 1 {
      assert p[|p| - 1] == [buf[idx]] + rest[0];
      LoneFirstPiece(buf, nl, idx);
    } else {
      assert p[|p| - 1] == rest[|rest| - 1];
    }
  }

  /** A scan that yields a single piece met no terminator. */
  lemma LonePieceIsFree(buf: seq<bv8>, nl: NewLine, j: nat)
    requires j <= |buf| && |Pieces(buf, nl, j)| == 1
    ensures Free(buf[j..], Terminator(nl))
  {
    var p := Pieces(buf, nl, j);
    PiecesFree(buf, nl, j);
    PiecesJoin(buf, nl, j);
    assert p == [p[0]];
    assert Join(p, Terminator(nl)) == p[0];
  }

  /** When the rest after a plain byte is a single piece, the text from that
      byte on cannot end with a terminator. */
  lemma LoneFirstPiece(buf: seq<bv8>, nl: NewLine, idx: nat)
    requires idx + 1 < |buf|
    requires !OccursAt(buf, Terminator(nl), idx)
    requires |Pieces(buf, nl, idx + 1)| == 1
    ensures !EndsAfter(buf, Terminator(nl), idx)
  {
    LonePieceIsFree(buf, nl, idx + 1);
    TailFree(buf, Terminator(nl), idx);
  }

  /** A text whose tail after `idx` is free of `t`, and which has no `t` at
      `idx`, does not end with `t` after `idx`. */
  lemma TailFree(buf: seq<bv8>, t: seq<bv8>, idx: nat)
    requires idx < |buf| && !OccursAt(buf, t, idx)
    requires Free(buf[idx + 1..], t)
    ensures !EndsAfter(buf, t, idx)
  {
    var k := |buf| - |t|;
    var tail := buf[idx + 1..];
    if EndsAfter(buf, t, idx) && k > idx {
      assert tail[k - idx - 1..k - idx - 1 + |t|] == buf[k..k + |t|];
      assert OccursAt(tail, t, k - idx - 1);
    }
  }

  /** RetrieveLines as a reference definition: the pieces, minus the empty
      piece after a final terminator. An empty text is one empty line. */
  function Lines(buf: seq<bv8>, nl: NewLine): (r: seq<seq<bv8>>)
    ensures |r| >= 1
    ensures |buf| == 0 ==> r == [[]]
  {
    var p := Pieces(buf, nl, 0);
    if |buf| > 0 && LastPieceIsEmpty(buf, nl, 0) then
      assert |p| > 1 by {
        PiecesJoin(buf, nl, 0);
        assert Join(p, Terminator(nl)) == buf;
      }
      p[..|p| - 1]
    else p
  }

  /** No line contains the terminator. */
  lemma LinesFree(buf: seq<bv8>, nl: NewLine)
    ensures AllFree(Lines(buf, nl), Terminator(nl))
  {
    PiecesFree(buf, nl, 0);
  }

  /** Dropping an empty last piece leaves the joined text short of one
      separator. */
  lemma DropEmptyLast(p: seq<seq<bv8>>, t: seq<bv8>)
    requires |p| > 1 && p[|p| - 1] == []
    ensures Join(p[..|p| - 1], t) + t == Join(p, t)
  {
    var q := p[..|p| - 1];
    assert p == q + [[]];
    JoinSnoc(q, [], t);
  }

  /** Joining the lines with the terminator gives the text back, with one
      more terminator exactly when the text ended with one. */
  lemma LinesRoundTrip(buf: seq<bv8>, nl: NewLine)
    ensures var t := Terminator(nl);
      Join(Lines(buf, nl), t) + (if EndsWith(buf, t) then t else []) == buf
  {
    var t := Terminator(nl);
    var p := Pieces(buf, nl, 0);
    PiecesJoin(buf, nl, 0);
    assert buf[0..] == buf;
    var ends := EndsWith(buf, t);
    EndsIffLastEmpty(buf, nl);
    JoinDroppingLast(buf, t, p, Lines(buf, nl), ends);
  }

  /** A non-empty text ends with the terminator exactly when its scan ends
      with an empty piece. */
  lemma EndsIffLastEmpty(buf: seq<bv8>, nl: NewLine)
    ensures |buf| > 0 ==> (EndsWith(buf, Terminator(nl)) <==> LastPieceIsEmpty(buf, nl, 0))
    ensures |buf| == 0 ==> !EndsWith(buf, Terminator(nl))
  {
    if |buf| > 0 {
      LastPieceEmpty(buf, nl, 0);
    }
  }

  /** The two shapes of `Lines`: all the pieces, or all but an empty last
      one when the text ends with the terminator. */
  lemma JoinDroppingLast(buf: seq<bv8>, t: seq<bv8>, p: seq<seq<bv8>>, lines: seq<seq<bv8>>, ends: bool)
    requires Join(p, t) == buf
    requires ends ==> |p| > 1 && p[|p| - 1] == [] && lines == p[..|p| - 1]
    requires !ends ==> lines == p
    ensures Join(lines, t) + (if ends then t else []) == buf
  {
    if ends {
      DropEmptyLast(p, t);
    }
  }

  /** After reading up to `idx`, the closed lines and the current line `s`
      followed by the pieces still ahead make up the whole scan. */
  ghost predicate Scanned(buf: seq<bv8>, nl: NewLine, idx: nat, lines: seq<seq<bv8>>, s: seq<bv8>)
    requires idx <= |buf|
  {
    var p := Pieces(buf, nl, idx);
    lines + [s + p[0]] + p[1..] == Pieces(buf, nl, 0)
  }

  lemma ScannedStart(buf: seq<bv8>, nl: NewLine)
    ensures Scanned(buf, nl, 0, [], [])
  {
    var p := Pieces(buf, nl, 0);
    assert [] + p[0] == p[0];
    assert [[] + p[0]] + p[1..] == p;
  }

  /** A terminator closes the current line. */
  lemma ScannedTerminator(buf: seq<bv8>, nl: NewLine, idx: nat, lines: seq<seq<bv8>>, s: seq<bv8>, next: nat)
    requires idx < |buf| && OccursAt(buf, Terminator(nl), idx)
    requires next == idx + |Terminator(nl)|
    requires Scanned(buf, nl, idx, lines, s)
    ensures Scanned(buf, nl, next, lines + [s], [])
  {
    var p := Pieces(buf, nl, idx);
    var rest := Pieces(buf, nl, next);
    assert p == [[]] + rest;
    assert [] + rest[0] == rest[0];
    assert [[] + rest[0]] + rest[1..] == rest;
    assert s + p[0] == s;
    assert lines + [s] + [[] + rest[0]] + rest[1..] == lines + [s + p[0]] + p[1..];
  }

  /** Any other byte extends the current line. */
  lemma ScannedByte(buf: seq<bv8>, nl: NewLine, idx: nat, lines: seq<seq<bv8>>, s: seq<bv8>)
    requires idx < |buf| && !OccursAt(buf, Terminator(nl), idx)
    requires Scanned(buf, nl, idx, lines, s)
    ensures Scanned(buf, nl, idx + 1, lines, s + [buf[idx]])
  {
    var p := Pieces(buf, nl, idx);
    var rest := Pieces(buf, nl, idx + 1);
    assert p == [[buf[idx]] + rest[0]] + rest[1..];
    assert s + [buf[idx]] + rest[0] == s + p[0];
  }

  /** At the end of the text, the lines are the pieces, less an empty last
      one when a terminator came last. */
  lemma ScannedEnd(buf: seq<bv8>, nl: NewLine, lines: seq<seq<bv8>>, s: seq<bv8>, lastNotLF: bool)
    requires Scanned(buf, nl, |buf|, lines, s)
    requires lastNotLF <==> (|buf| == 0 || s != [])
    ensures (if lastNotLF then lines + [s] else lines) == Lines(buf, nl)
  {
    var p0 := Pieces(buf, nl, 0);
    assert Pieces(buf, nl, |buf|) == [[]];
    assert s + [] == s;
    assert p0 == lines + [s];
    if !lastNotLF {
      assert p0[..|p0| - 1] == lines;
    }
  }

  /** One iteration of the loop of RetrieveLines: a terminator closes the
      current line, any other byte extends it; the scan then resumes after
      the last byte read. */
  method ReadStep(buf: seq<bv8>, nl: NewLine, idx: nat, lines: seq<seq<bv8>>, s: seq<bv8>)
    returns (next: nat, lines': seq<seq<bv8>>, s': seq<bv8>, lastNotLF: bool)
    requires idx < |buf| && Scanned(buf, nl, idx, lines, s)
    ensures idx < next <= |buf| && Scanned(buf, nl, next, lines', s')
    ensures lastNotLF <==> s' != []
  {
    var (isLF, last) := LineFeedAt(buf, idx, nl);
    next := last + 1;
    if isLF {
      ScannedTerminator(buf, nl, idx, lines, s, next);
      lines', s', lastNotLF := lines + [s], [], false;
    } else {
      ScannedByte(buf, nl, idx, lines, s);
      lines', s', lastNotLF := lines, s + [buf[idx]], true;
    }
  }

  /** The loop of RetrieveLines: bytes are appended to the current line until
      a terminator, which closes it; a final line is added unless the last
      thing read was a terminator. */
  method RetrieveLines(buf: seq<bv8>, nl: NewLine) returns (lines: seq<seq<bv8>>)
    ensures lines == Lines(buf, nl)
  {
    lines := [];
    var s: seq<bv8> := [];
    var lastNotLF := true;
    var idx: nat := 0;
    ScannedStart(buf, nl);
    while idx < |buf|
      invariant idx <= |buf|
      invariant Scanned(buf, nl, idx, lines, s)
      invariant lastNotLF <==> (idx == 0 || s != [])
      decreases |buf| - idx
    {
      idx, lines, s, lastNotLF := ReadStep(buf, nl, idx, lines, s);
    }
    ScannedEnd(buf, nl, lines, s, lastNotLF);
    if lastNotLF {
      lines := lines + [s];
    }
  }

  /** Error of ATextFile's line accessor. */
  datatype Error = OutOfRange

  /** A text file: its new-line style and the lines read at construction. */
  datatype Text = Text(style: NewLine, lines: seq<seq<bv8>>)

  /** Construction from the file's bytes (memory block or whole file). */
  function Open(buf: seq<bv8>, nl: NewLine): (t: Text)
    ensures t.style == nl
    ensures |t.lines| >= 1
    ensures Join(t.lines, Terminator(nl)) + (if EndsWith(buf, Terminator(nl)) then Terminator(nl) else []) == buf
  {
    LinesRoundTrip(buf, nl);
    Text(nl, Lines(buf, nl))
  }

  /** Construction from a path or descriptor: the binary loader's errors
      pass through, and a loaded file is split as `Open` splits a buffer. */
  function FromFile(f: BinaryFile.Stat, nl: NewLine): (r: Result<Text, BinaryFile.Error>)
    ensures f.StatFails? || f.OpenFails? ==> r == Err(BinaryFile.OpenError)
    ensures f.NotRegularFile? ==> r == Err(BinaryFile.NotAFile)
    ensures f.RegularFile? && |f.contents| == 0 ==> r == Err(BinaryFile.ReadError)
    ensures f.RegularFile? && |f.contents| > 0 ==>
      (&& r.Ok? && r.value.style == nl
       && Join(r.value.lines, Terminator(nl)) +
            (if EndsWith(f.contents, Terminator(nl)) then Terminator(nl) else []) == f.contents)
  {
    match BinaryFile.Load(f)
    case Err(e) => Err(e)
    case Ok(buf) => Ok(Open(buf, nl))
  }

  function LineCount(t: Text): (n: nat)
    ensures n == |t.lines|
  {
    |t.lines|
  }

  /** operator[]: the line, or OutOfRange past the last one. */
  function Line(t: Text, line: nat): (r: Result<seq<bv8>, Error>)
    ensures r.Err? <==> line >= LineCount(t)
    ensures r.Ok? ==> r.value == t.lines[line]
  {
    if line >= LineCount(t) then Err(OutOfRange) else Ok(t.lines[line])
  }

  /** CString_F: a NUL-terminated copy of the line, or nothing past the end. */
  function CString(t: Text, line: nat): (r: Option<seq<bv8>>)
    ensures r.None? <==> line >= LineCount(t)
    ensures r.Some? ==> |r.value| == |t.lines[line]| + 1 && r.value[|r.value| - 1] == 0
    ensures r.Some? ==> r.value[..|r.value| - 1] == t.lines[line]
  {
    if line >= LineCount(t) then None else Some(t.lines[line] + [0])
  }

  /** A lone CR inside a Windows text stays part of its line. */
  lemma LoneCarriageReturnKept()
    ensures Lines([97, 13, 98], Windows) == [[97, 13, 98]]
  {
    var buf: seq<bv8> := [97, 13, 98];
    var r3 := Pieces(buf, Windows, 3);
    assert r3 == [[]];
    var r2 := Pieces(buf, Windows, 2);
    assert r2 == [[buf[2]] + r3[0]] + r3[1..];
    assert [buf[2]] + r3[0] == [98] && r3[1..] == [];
    assert r2 == [[98]];
    var r1 := Pieces(buf, Windows, 1);
    assert r1 == [[buf[1]] + r2[0]] + r2[1..];
    assert [buf[1]] + r2[0] == [13, 98] && r2[1..] == [];
    assert r1 == [[13, 98]];
    var r0 := Pieces(buf, Windows, 0);
    assert r0 == [[buf[0]] + r1[0]] + r1[1..];
    assert [buf[0]] + r1[0] == [97, 13, 98] && r1[1..] == [];
    assert r0 == [[97, 13, 98]];
  }

  /** A final terminator does not open an empty last line. */
  lemma TrailingTerminatorDropped()
    ensures Lines([97, 10, 98, 10], Unix) == [[97], [98]]
  {
    var buf: seq<bv8> := [97, 10, 98, 10];
    var r4 := Pieces(buf, Unix, 4);
    assert r4 == [[]];
    var r3 := Pieces(buf, Unix, 3);
    assert r3 == [[]] + r4;
    var r2 := Pieces(buf, Unix, 2);
    assert r2 == [[buf[2]] + r3[0]] + r3[1..];
    assert [buf[2]] + r3[0] == [98] && r3[1..] == [[]];
    assert r2 == [[98], []];
    var r1 := Pieces(buf, Unix, 1);
    assert r1 == [[]] + r2;
    var r0 := Pieces(buf, Unix, 0);
    assert r0 == [[buf[0]] + r1[0]] + r1[1..];
    assert [buf[0]] + r1[0] == [97] && r1[1..] == r2;
    assert r0 == [[97], [98], []];
    assert r0[..2] == [[97], [98]];
    assert LastPieceIsEmpty(buf, Unix, 0);
  }
}
