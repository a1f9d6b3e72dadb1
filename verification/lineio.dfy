/**
 * Line reading.  Both programs read text files with a hand-written
 * f_readline that stores at most len-1 characters, silently drops '\r' and
 * stops after '\n' or at end of file.  They differ in what ends a read loop:
 * the compression program stops only when a call stores nothing AND the file
 * is exhausted, the decompression program stops at the first call that
 * stores nothing, so an empty line ends every one of its read loops.
 *
 * A file is modelled as its whole content and a read position.
 */
module LineIO {

  /** Line buffer sizes: MAX_LINE_LEN / sizeof(linebuf) of the two programs. */
  const DecompLineLen: nat := 256
  const CompLineLen: nat := 32

  /** A line as stored by f_readline holds neither '\n' nor '\r'. */
  predicate Clean(l: string) { forall i :: 0 <= i < |l| ==> l[i] != '\n' && l[i] != '\r' }

  datatype Read = Read(line: string, next: nat)

  /**
   * One call of f_readline at position `pos` with `room` characters of buffer
   * left (len - 1 on entry).
   */
  function ReadLine(content: string, pos: nat, room: nat): (r: Read)
    requires pos <= |content|
    ensures pos <= r.next <= |content|
    ensures |r.line| <= room && Clean(r.line)
    ensures pos < |content| && room > 0 ==> pos < r.next
    ensures |r.line| <= r.next - pos
    decreases |content| - pos
  {
    if room == 0 || pos == |content| then Read([], pos)
    else if content[pos] == '\n' then Read([], pos + 1)
    else if content[pos] == '\r' then ReadLine(content, pos + 1, room)
    else
      var r := ReadLine(content, pos + 1, room - 1);
      Read([content[pos]] + r.line, r.next)
  }

  /**
   * The lines a decompression-side loop `while (f_readline(fp, buf, len))`
   * sees: it stops at the first call that stores no character.
   */
  function LinesD(content: string, pos: nat, len: nat): seq<string>
    requires pos <= |content| && len >= 1
    decreases |content| - pos
  {
    var r := ReadLine(content, pos, len - 1);
    if |r.line| > 0 then [r.line] + LinesD(content, r.next, len) else []
  }

  /**
   * The lines a compression-side loop sees: its f_readline reports 0 only
   * when nothing was stored and the file is at its end.
   */
  function LinesC(content: string, pos: nat, len: nat): seq<string>
    requires pos <= |content| && len >= 2
    decreases |content| - pos
  {
    var r := ReadLine(content, pos, len - 1);
    if |r.line| == 0 && r.next == |content| then [] else [r.line] + LinesC(content, r.next, len)
  }

  /**
   * Every line the decompression-side loop hands to its body is non-empty,
   * clean and at most len-1 characters long.
   */
  lemma {:induction false} LinesDShape(content: string, pos: nat, len: nat)
    requires pos <= |content| && len >= 1
    ensures forall l :: l in LinesD(content, pos, len) ==> 0 < |l| < len && Clean(l)
    decreases |content| - pos
  {
    var r := ReadLine(content, pos, len - 1);
    if |r.line| > 0 {
      LinesDShape(content, r.next, len);
    }
  }

  /** Each line followed by the terminator `eol`, as writeFile(line) + writeFile(eol). */
  function Unlines(lines: seq<string>, eol: string): (s: string)
  {
    if |lines| == 0 then [] else lines[0] + eol + Unlines(lines[1..], eol)
  }

  predicate IsEol(eol: string) { eol == "\n" || eol == "\r\n" }

  // ---------------------------------------------------------------------
  // Reading back what was written
  // ---------------------------------------------------------------------

  /**
   * A clean line shorter than the buffer, followed by a terminator, is read
   * back in one call that leaves the position just after the terminator.
   */
  lemma {:induction false} ReadFramedLine(content: string, pos: nat, room: nat, l: string, eol: string)
    requires IsEol(eol) && Clean(l) && |l| < room
    requires pos + |l| + |eol| <= |content| && content[pos..pos + |l| + |eol|] == l + eol
    ensures ReadLine(content, pos, room) == Read(l, pos + |l| + |eol|)
    decreases |l|
  {
    if |l| == 0 {
      var t := content[pos..pos + |eol|];
      assert t == eol by { assert l + eol == eol; }
      assert content[pos] == t[0] == eol[0];
      if eol == "\r\n" {
        assert |eol| == 2 && eol[0] == '\r' && eol[1] == '\n';
        assert content[pos..pos + 2][1] == content[pos + 1];
        assert content[pos + 1] == '\n';
      } else {
        assert eol[0] == '\n';
      }
    } else {
      var n := pos + |l| + |eol|;
      assert content[pos] == (l + eol)[0] == l[0];
      assert content[pos + 1..n] == content[pos..n][1..];
      assert (l + eol)[1..] == l[1..] + eol;
      ReadFramedLine(content, pos + 1, room - 1, l[1..], eol);
      assert [l[0]] + l[1..] == l;
    }
  }

  lemma UnlinesCons(l: string, ls: seq<string>, eol: string)
    ensures Unlines([l] + ls, eol) == l + eol + Unlines(ls, eol)
  {
    assert ([l] + ls)[1..] == ls;
  }

  lemma {:induction false} UnlinesAppend(a: seq<string>, b: seq<string>, eol: string)
    ensures Unlines(a + b, eol) == Unlines(a, eol) + Unlines(b, eol)
  {
    if |a| > 0 {
      assert (a + b)[1..] == a[1..] + b;
      UnlinesAppend(a[1..], b, eol);
    } else {
      assert a + b == b;
    }
  }

  /** One framed, non-empty line is one turn of the decompression-side loop. */
  lemma LinesDStep(content: string, pos: nat, next: nat, len: nat, l: string, eol: string)
    requires len >= 1 && IsEol(eol) && 0 < |l| < len - 1 && Clean(l)
    requires next == pos + |l| + |eol| && next <= |content| && content[pos..next] == l + eol
    ensures LinesD(content, pos, len) == [l] + LinesD(content, next, len)
  {
    ReadFramedLine(content, pos, len - 1, l, eol);
  }

  /** Splitting a written block after its first line. */
  lemma UnlinesSplit(content: string, pos: nat, end: nat, lines: seq<string>, eol: string)
    requires |lines| > 0
    requires end == pos + |Unlines(lines, eol)| && end <= |content|
    requires content[pos..end] == Unlines(lines, eol)
    ensures var next := pos + |lines[0]| + |eol|;
      next <= end && content[pos..next] == lines[0] + eol &&
      end == next + |Unlines(lines[1..], eol)| && content[next..end] == Unlines(lines[1..], eol)
  {
    var u := Unlines(lines, eol);
    var k := |lines[0]| + |eol|;
    assert u == (lines[0] + eol) + Unlines(lines[1..], eol);
    assert content[pos..pos + k] == u[..k];
    assert content[pos + k..end] == u[k..];
  }

  lemma ConsChain<T>(whole: seq<T>, mid: seq<T>, rest: seq<T>, xs: seq<T>)
    requires |xs| > 0 && whole == [xs[0]] + mid && mid == xs[1..] + rest
    ensures whole == xs + rest
  {
    assert xs == [xs[0]] + xs[1..];
  }

  /**
   * Written lines, each non-empty, clean and shorter than the buffer, are
   * read back one for one by the decompression-side loop, which then goes on
   * at `end`, just after them.
   */
  lemma {:induction false} LinesDOfUnlines(content: string, pos: nat, end: nat, len: nat, lines: seq<string>, eol: string)
    requires len >= 1 && IsEol(eol)
    requires forall i :: 0 <= i < |lines| ==> 0 < |lines[i]| < len - 1 && Clean(lines[i])
    requires end == pos + |Unlines(lines, eol)| && end <= |content|
    requires content[pos..end] == Unlines(lines, eol)
    ensures LinesD(content, pos, len) == lines + LinesD(content, end, len)
    decreases |lines|
  {
    if |lines| > 0 {
      var next := pos + |lines[0]| + |eol|;
      UnlinesSplit(content, pos, end, lines, eol);
      LinesDStep(content, pos, next, len, lines[0], eol);
      LinesDOfUnlines(content, next, end, len, lines[1..], eol);
      ConsChain(LinesD(content, pos, len), LinesD(content, next, len), LinesD(content, end, len), lines);
    }
  }

  /** A file of such lines reads back exactly. */
  lemma LinesDRoundTrip(lines: seq<string>, eol: string, len: nat)
    requires len >= 1 && IsEol(eol)
    requires forall i :: 0 <= i < |lines| ==> 0 < |lines[i]| < len - 1 && Clean(lines[i])
    ensures LinesD(Unlines(lines, eol), 0, len) == lines
  {
    var u := Unlines(lines, eol);
    assert u[0..|u|] == u;
    LinesDOfUnlines(u, 0, |u|, len, lines, eol);
  }

  /** An empty line ends the decompression-side loop, whatever follows it. */
  lemma EmptyLineEndsLoop(content: string, pos: nat, len: nat, eol: string)
    requires len >= 2 && IsEol(eol)
    requires pos + |eol| <= |content| && content[pos..pos + |eol|] == eol
    ensures LinesD(content, pos, len) == []
  {
    assert content[pos..pos + 0 + |eol|] == [] + eol;
    ReadFramedLine(content, pos, len - 1, [], eol);
  }

  /**
   * Lines after an empty line are never seen: reading lines ++ [""] ++ more
   * yields just `lines`.
   */
  lemma LinesDStopAtEmpty(lines: seq<string>, more: seq<string>, eol: string, len: nat)
    requires len >= 2 && IsEol(eol)
    requires forall i :: 0 <= i < |lines| ==> 0 < |lines[i]| < len - 1 && Clean(lines[i])
    ensures LinesD(Unlines(lines + [""] + more, eol), 0, len) == lines
  {
    var u := Unlines(lines + [""] + more, eol);
    var a := Unlines(lines, eol);
    assert lines + [""] + more == lines + ([""] + more);
    UnlinesAppend(lines, [""] + more, eol);
    UnlinesCons("", more, eol);
    assert u == a + eol + Unlines(more, eol);
    assert u[0..|a|] == a;
    LinesDOfUnlines(u, 0, |a|, len, lines, eol);
    assert u[|a|..|a| + |eol|] == eol;
    EmptyLineEndsLoop(u, |a|, len, eol);
  }

  /**
   * The compression-side loop reads back written lines one for one, empty
   * lines included, except that an empty LAST line is taken for the end of
   * the file.
   */
  lemma {:induction false} LinesCOfUnlines(content: string, pos: nat, len: nat, lines: seq<string>, eol: string)
    requires len >= 2 && IsEol(eol)
    requires forall i :: 0 <= i < |lines| ==> |lines[i]| < len - 1 && Clean(lines[i])
    requires |lines| == 0 || |lines[|lines| - 1]| > 0
    requires pos + |Unlines(lines, eol)| == |content|
    requires content[pos..] == Unlines(lines, eol)
    ensures LinesC(content, pos, len) == lines
    decreases |lines|
  {
    if |lines| > 0 {
      var l := lines[0];
      var u := Unlines(lines, eol);
      var tail := Unlines(lines[1..], eol);
      assert u == l + eol + tail;
      assert content[pos..pos + |l| + |eol|] == u[..|l| + |eol|] == l + eol;
      ReadFramedLine(content, pos, len - 1, l, eol);
      var p := pos + |l| + |eol|;
      assert content[p..] == u[|l| + |eol|..] == tail;
      if |l| == 0 {
        assert |lines| > 1 && |tail| > 0;
      }
      assert LinesC(content, pos, len) == [l] + LinesC(content, p, len);
      LinesCOfUnlines(content, p, len, lines[1..], eol);
      assert lines == [l] + lines[1..];
    }
  }
}
