/**
 * String operations with the meaning Python's `str` methods give them in the bot:
 * `sep.join(parts)`, `s.split(sep)` (leftmost, non-overlapping matches) and
 * `s.split(c, 1)[1]`, plus a substring relation used to state what a message mentions.
 */
module Text {

  /** `sep` occurs in `s` starting at index `j`. */
  predicate OccursAt(s: string, sep: string, j: int) {
    0 <= j && j + |sep| <= |s| && s[j..j + |sep|] == sep
  }

  /** `sep` occurs nowhere in `s`. */
  ghost predicate Free(s: string, sep: string) {
    forall j :: !OccursAt(s, sep, j)
  }

  /** `t` is a substring of `s` (Python's `t in s`). */
  ghost predicate Contains(s: string, t: string) {
    exists j :: OccursAt(s, t, j)
  }

  /** Python's `s.find(sep, i)`: the leftmost occurrence at or after `i`, or -1. */
  function IndexFrom(s: string, sep: string, i: nat): (r: int)
    decreases |s| - i + 1
    ensures r == -1 || (i <= r && OccursAt(s, sep, r))
    ensures forall j :: i <= j && (r == -1 || j < r) ==> !OccursAt(s, sep, j)
  {
    if i + |sep| > |s| then -1
    else if s[i..i + |sep|] == sep then i
    else IndexFrom(s, sep, i + 1)
  }

  /** Python's `sep.join(parts)`. */
  function Join(parts: seq<string>, sep: string): string
  {
    if |parts| == 0 then ""
    else if |parts| == 1 then parts[0]
    else parts[0] + sep + Join(parts[1..], sep)
  }

  /** The pieces written one after another, as a loop of `+=` builds them. */
  function Concat(pieces: seq<string>): string {
    if pieces == [] then "" else Concat(pieces[..|pieces| - 1]) + pieces[|pieces| - 1]
  }

  /** Python's `s.split(sep)` for a non-empty separator (an empty one raises ValueError). */
  function Split(s: string, sep: string): (parts: seq<string>)
    requires |sep| > 0
    decreases |s|
    ensures |parts| >= 1
    ensures |parts| == 1 <==> Free(s, sep)
  {
    var i := IndexFrom(s, sep, 0);
    if i < 0 then [s] else [s[..i]] + Split(s[i + |sep|..], sep)
  }

  /** Python's `s.split(c, 1)[1]`: what follows the first `c`. */
  function AfterFirst(s: string, c: char): string
    requires c in s
  {
    if s[0] == c then s[1..] else AfterFirst(s[1..], c)
  }

  /**
   * A separator of two distinct characters is found right after a prefix that does not
   * contain it: no occurrence can straddle the prefix and the separator.
   */
  lemma IndexAfterFreePrefix(x: string, sep: string, rest: string)
    requires |sep| == 2 && sep[0] != sep[1]
    requires Free(x, sep)
    ensures IndexFrom(x + sep + rest, sep, 0) == |x|
  {
    var s := x + sep + rest;
    assert s[|x|..|x| + 2] == sep;
    assert OccursAt(s, sep, |x|);
    forall j | 0 <= j < |x|
      ensures !OccursAt(s, sep, j)
    {
      if j + 2 <= |x| {
        assert s[j..j + 2] == x[j..j + 2];
        assert !OccursAt(x, sep, j);
      } else {
        assert s[j + 1] == sep[0];
        assert s[j..j + 2][1] == sep[0];
      }
    }
  }

  /**
   * Splitting a join gives the parts back, provided there is at least one part and no
   * part contains the separator (Python: `"".split(sep) == [""]`, so `[]` is not recovered).
   */
  lemma {:induction false} SplitJoin(parts: seq<string>, sep: string)
    requires |sep| == 2 && sep[0] != sep[1]
    requires |parts| > 0
    requires forall p :: p in parts ==> Free(p, sep)
    ensures Split(Join(parts, sep), sep) == parts
  {
    if |parts| == 1 {
      assert Free(parts[0], sep);
    } else {
      var x, tail := parts[0], Join(parts[1..], sep);
      assert Free(x, sep);
      IndexAfterFreePrefix(x, sep, tail);
      var s := x + sep + tail;
      assert s[..|x|] == x;
      assert s[|x| + 2..] == tail;
      SplitJoin(parts[1..], sep);
    }
  }

  /** `AfterFirst` skips a prefix free of `c` and the first `c`, and keeps the rest whole. */
  lemma {:induction false} AfterFirstSkipsPrefix(prefix: string, c: char, rest: string)
    requires c !in prefix
    ensures c in prefix + [c] + rest
    ensures AfterFirst(prefix + [c] + rest, c) == rest
  {
    var s := prefix + [c] + rest;
    assert s[|prefix|] == c;
    if prefix != [] {
      assert s[1..] == prefix[1..] + [c] + rest;
      AfterFirstSkipsPrefix(prefix[1..], c, rest);
    }
  }

  lemma {:induction false} ConcatAppend(a: seq<string>, b: seq<string>)
    ensures Concat(a + b) == Concat(a) + Concat(b)
  {
    if b == [] {
      assert a + b == a;
    } else {
      var b' := b[..|b| - 1];
      assert (a + b)[..|a + b| - 1] == a + b';
      assert (a + b)[|a + b| - 1] == b[|b| - 1];
      ConcatAppend(a, b');
    }
  }

  lemma ContainsMiddle(a: string, t: string, b: string)
    ensures Contains(a + t + b, t)
  {
    assert (a + t + b)[|a|..|a| + |t|] == t;
    assert OccursAt(a + t + b, t, |a|);
  }

  /** Each piece appears in the concatenation. */
  lemma {:induction false} ConcatContainsPieces(pieces: seq<string>, i: nat)
    requires i < |pieces|
    ensures Contains(Concat(pieces), pieces[i])
  {
    var pre, mid, post := pieces[..i], [pieces[i]], pieces[i + 1..];
    assert pieces == pre + mid + post;
    ConcatAppend(pre + mid, post);
    ConcatAppend(pre, mid);
    assert mid[..0] == [];
    assert Concat(mid) == pieces[i];
    ContainsMiddle(Concat(pre), pieces[i], Concat(post));
  }

  lemma ContainsLeft(a: string, b: string, t: string)
    requires Contains(a, t)
    ensures Contains(a + b, t)
  {
    var j :| OccursAt(a, t, j);
    assert (a + b)[j..j + |t|] == a[j..j + |t|];
    assert OccursAt(a + b, t, j);
  }

  lemma ContainsRight(a: string, b: string, t: string)
    requires Contains(b, t)
    ensures Contains(a + b, t)
  {
    var j :| OccursAt(b, t, j);
    assert (a + b)[|a| + j..|a| + j + |t|] == b[j..j + |t|];
    assert OccursAt(a + b, t, |a| + j);
  }

  lemma ContainsWhole(s: string)
    ensures Contains(s, s)
  {
    assert OccursAt(s, s, 0);
  }

  lemma ContainsTransitive(a: string, b: string, c: string)
    requires Contains(a, b) && Contains(b, c)
    ensures Contains(a, c)
  {
    var i :| OccursAt(a, b, i);
    var k :| OccursAt(b, c, k);
    assert a[i..i + |b|] == b;
    forall m | 0 <= m < |c|
      ensures a[i + k + m] == c[m]
    {
      assert a[i + k + m] == a[i..i + |b|][k + m];
      assert b[k..k + |c|][m] == b[k + m];
    }
    assert a[i + k..i + k + |c|] == c;
    assert OccursAt(a, c, i + k);
  }

  /** Every part of a join appears in the joined text. */
  lemma {:induction false} JoinContainsParts(parts: seq<string>, sep: string, k: nat)
    requires k < |parts|
    ensures Contains(Join(parts, sep), parts[k])
  {
    if |parts| == 1 {
      ContainsWhole(parts[0]);
    } else if k == 0 {
      ContainsWhole(parts[0]);
      ContainsLeft(parts[0], sep + Join(parts[1..], sep), parts[0]);
      assert parts[0] + sep + Join(parts[1..], sep) == parts[0] + (sep + Join(parts[1..], sep));
    } else {
      JoinContainsParts(parts[1..], sep, k - 1);
      ContainsRight(parts[0] + sep, Join(parts[1..], sep), parts[k]);
    }
  }
}
