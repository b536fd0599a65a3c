/**
 * Line and column of a byte offset, as the editor derives them from the
 * text before the cursor, and the inverse map from a (line, column) pair back
 * to the offset.
 */
module LineColumn {
  import opened Common

  /** `s.matches('\n').count()`: how many line breaks `s` holds. */
  function CountNewlines(s: seq<byte>): (n: nat)
    ensures n <= |s|
    ensures n == 0 <==> forall i :: 0 <= i < |s| ==> s[i] != NEWLINE
  {
    if s == [] then 0
    else
      assert forall i :: 1 <= i < |s| ==> s[i] == s[1..][i - 1];
      (if s[0] == NEWLINE then 1 else 0) + CountNewlines(s[1..])
  }

  /** `s.rfind('\n')`: the offset of the last line break in `s`, if any. */
  function LastNewline(s: seq<byte>): (r: Option<nat>)
    ensures r.Some? ==> r.value < |s| && s[r.value] == NEWLINE
    ensures r.Some? ==> forall j :: r.value < j < |s| ==> s[j] != NEWLINE
    ensures r.None? ==> forall j :: 0 <= j < |s| ==> s[j] != NEWLINE
  {
    if s == [] then None
    else if s[|s| - 1] == NEWLINE then Some(|s| - 1)
    else LastNewline(s[..|s| - 1])
  }

  /** The zero-based line of offset `p`: the line breaks before it. */
  function LineOf(s: seq<byte>, p: nat): (line: nat)
    requires p <= |s|
  {
    CountNewlines(s[..p])
  }

  /**
   * The zero-based column of offset `p`: its distance from the byte after the
   * last line break before it, or from the start when there is none. The
   * bytes it spans hold no line break, and the byte before them is one.
   */
  function ColumnOf(s: seq<byte>, p: nat): (column: nat)
    requires p <= |s|
    ensures column <= p
    ensures forall j :: p - column <= j < p ==> s[j] != NEWLINE
    ensures column < p ==> s[p - column - 1] == NEWLINE
  {
    var before := s[..p];
    match LastNewline(before)
    case Some(i) => |before| - i - 1
    case None => |before|
  }

  /** The offset where line `k` starts, or None when `s` has fewer than `k` line breaks. */
  function LineStart(s: seq<byte>, k: nat): (r: Option<nat>)
    ensures r.Some? ==> r.value <= |s|
  {
    if k == 0 then Some(0)
    else if s == [] then None
    else
      var rest := LineStart(s[1..], if s[0] == NEWLINE then k - 1 else k);
      if rest.Some? then Some(rest.value + 1) else None
  }

  /** The end of the line holding offset `q`: the next line break at or after `q`, or the end of `s`. */
  function LineEnd(s: seq<byte>, q: nat): (e: nat)
    requires q <= |s|
    ensures q <= e <= |s|
    ensures forall j :: q <= j < e ==> s[j] != NEWLINE
    ensures e < |s| ==> s[e] == NEWLINE
    decreases |s| - q
  {
    if q == |s| || s[q] == NEWLINE then q else LineEnd(s, q + 1)
  }

  /**
   * The offset at (line, column), or None when `s` has no such line or the
   * line is shorter than `column`. A column may reach the line's end.
   */
  function OffsetOf(s: seq<byte>, line: nat, column: nat): (r: Option<nat>) {
    match LineStart(s, line)
    case None => None
    case Some(q) => if q + column <= LineEnd(s, q) then Some(q + column) else None
  }

  /** Counting line breaks distributes over concatenation. */
  lemma {:induction false} CountNewlinesAppend(a: seq<byte>, b: seq<byte>)
    ensures CountNewlines(a + b) == CountNewlines(a) + CountNewlines(b)
  {
    if a != [] {
      assert (a + b)[1..] == a[1..] + b;
      CountNewlinesAppend(a[1..], b);
    } else {
      assert a + b == b;
    }
  }

  /** A line start found by LineStart follows exactly `k` line breaks. */
  lemma {:induction false} LineStartSound(s: seq<byte>, k: nat)
    requires LineStart(s, k).Some?
    ensures CountNewlines(s[..LineStart(s, k).value]) == k
    ensures LineStart(s, k).value == 0 || s[LineStart(s, k).value - 1] == NEWLINE
  {
    if k != 0 {
      var k' := if s[0] == NEWLINE then k - 1 else k;
      LineStartSound(s[1..], k');
      var q := LineStart(s, k).value;
      assert q == LineStart(s[1..], k').value + 1;
      assert s[..q][1..] == s[1..][..q - 1];
      if k' == 0 {
        assert q == 1;
      }
    }
  }

  /** Every offset that follows exactly `k` line breaks, right after a break or at 0, is where LineStart puts line `k`. */
  lemma {:induction false} LineStartComplete(s: seq<byte>, k: nat, q: nat)
    requires q <= |s|
    requires CountNewlines(s[..q]) == k
    requires q == 0 || s[q - 1] == NEWLINE
    ensures LineStart(s, k) == Some(q)
  {
    if q != 0 {
      assert s[..q][1..] == s[1..][..q - 1];
      var k' := if s[0] == NEWLINE then k - 1 else k;
      assert CountNewlines(s[1..][..q - 1]) == k';
      if q - 1 != 0 {
        assert s[1..][q - 2] == s[q - 1];
      }
      LineStartComplete(s[1..], k', q - 1);
    }
  }

  /** The bytes of `s[q..p]` hold no line break when `p` is no further than the end of `q`'s line. */
  lemma NoNewlineBeforeLineEnd(s: seq<byte>, q: nat, p: nat)
    requires q <= p <= |s|
    requires p <= LineEnd(s, q)
    ensures CountNewlines(s[..p]) == CountNewlines(s[..q])
  {
    assert s[..p] == s[..q] + s[q..p];
    CountNewlinesAppend(s[..q], s[q..p]);
    assert forall i :: 0 <= i < p - q ==> s[q..p][i] == s[q + i];
  }

  /** Line and column locate the offset they were computed from. */
  lemma OffsetOfLineColumn(s: seq<byte>, p: nat)
    requires p <= |s|
    ensures OffsetOf(s, LineOf(s, p), ColumnOf(s, p)) == Some(p)
  {
    var q := p - ColumnOf(s, p);
    assert p <= LineEnd(s, q);
    NoNewlineBeforeLineEnd(s, q, p);
    LineStartComplete(s, LineOf(s, p), q);
  }

  /** Every offset that OffsetOf finds has exactly the line and column it was asked for. */
  lemma LineColumnOfOffset(s: seq<byte>, line: nat, column: nat)
    requires OffsetOf(s, line, column).Some?
    ensures OffsetOf(s, line, column).value <= |s|
    ensures LineOf(s, OffsetOf(s, line, column).value) == line
    ensures ColumnOf(s, OffsetOf(s, line, column).value) == column
  {
    var q := LineStart(s, line).value;
    var p := q + column;
    LineStartSound(s, line);
    NoNewlineBeforeLineEnd(s, q, p);
  }
}
