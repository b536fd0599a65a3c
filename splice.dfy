/**
 * The two string splices the buffer performs on its UTF-8 bytes, and the
 * char-boundary test that Rust's `String` applies before splicing.
 */
module Splice {
  import opened Common

  /** A byte that continues a multi-byte UTF-8 sequence (0b10xxxxxx). */
  predicate IsContinuationByte(b: byte) {
    0x80 <= b < 0xC0
  }

  /**
   * Rust's `str::is_char_boundary`: offset 0, the end of the string, or an
   * offset whose byte is not a continuation byte. Any larger offset is not a
   * boundary.
   */
  predicate IsCharBoundary(s: seq<byte>, i: nat) {
    i == 0 || i == |s| || (i < |s| && !IsContinuationByte(s[i]))
  }

  /**
   * The part of UTF-8 well-formedness that the splices rely on: the bytes do
   * not begin in the middle of a character. Every Rust `str` satisfies it.
   */
  predicate StartsAtChar(s: seq<byte>) {
    s == [] || !IsContinuationByte(s[0])
  }

  /** `String::insert_str(p, t)`: `t` placed at byte offset `p`. */
  function Inserted(s: seq<byte>, p: nat, t: seq<byte>): (r: seq<byte>)
    requires p <= |s|
    ensures |r| == |s| + |t|
  {
    s[..p] + t + s[p..]
  }

  /** `String::replace_range(start..end, "")`: the half-open range dropped. */
  function Removed(s: seq<byte>, start: nat, end: nat): (r: seq<byte>)
    requires start <= end <= |s|
    ensures |r| == |s| - (end - start)
  {
    s[..start] + s[end..]
  }

  /** Inserting `t` at `p` and removing `[p, p + |t|)` gives back the original bytes. */
  lemma InsertThenRemove(s: seq<byte>, p: nat, t: seq<byte>)
    requires p <= |s|
    ensures Removed(Inserted(s, p, t), p, p + |t|) == s
  {

  }

  /** Removing `[a, e)` and inserting the removed bytes back at `a` gives back the original bytes. */
  lemma RemoveThenInsert(s: seq<byte>, a: nat, e: nat)
    requires a <= e <= |s|
    ensures Inserted(Removed(s, a, e), a, s[a..e]) == s
  {

  }

  /**
   * Every char boundary of `s` is still one after inserting `t` at the
   * boundary `p`: offsets before `p` keep their place, offsets from `p` on
   * move right by `|t|`.
   */
  lemma InsertedKeepsBoundaries(s: seq<byte>, p: nat, t: seq<byte>, q: nat)
    requires StartsAtChar(s)
    requires p <= |s| && IsCharBoundary(s, p)
    requires IsCharBoundary(s, q)
    ensures q < p ==> IsCharBoundary(Inserted(s, p, t), q)
    ensures p <= q ==> IsCharBoundary(Inserted(s, p, t), q + |t|)
  {

  }

  /**
   * Every char boundary of `s` outside the removed range `[a, e)` is still
   * one afterwards: offsets before `a` keep their place, offsets from `e` on
   * move left by `e - a`; and `a` itself becomes one, since the byte there is
   * the one that was at the boundary `e`.
   */
  lemma RemovedKeepsBoundaries(s: seq<byte>, a: nat, e: nat, q: nat)
    requires a <= e <= |s| && IsCharBoundary(s, e)
    requires IsCharBoundary(s, q)
    ensures IsCharBoundary(Removed(s, a, e), a)
    ensures q < a ==> IsCharBoundary(Removed(s, a, e), q)
    ensures e <= q ==> IsCharBoundary(Removed(s, a, e), q - (e - a))
  {

  }

  /** Splicing a `str` in at a boundary keeps the bytes starting at a character. */
  lemma InsertedStartsAtChar(s: seq<byte>, p: nat, t: seq<byte>)
    requires StartsAtChar(s) && StartsAtChar(t)
    requires p <= |s|
    ensures StartsAtChar(Inserted(s, p, t))
  {

  }

  /** Removing a range that ends at a boundary keeps the bytes starting at a character. */
  lemma RemovedStartsAtChar(s: seq<byte>, a: nat, e: nat)
    requires StartsAtChar(s)
    requires a <= e <= |s| && IsCharBoundary(s, e)
    ensures StartsAtChar(Removed(s, a, e))
  {

  }
}
