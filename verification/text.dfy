/** String primitives the deck parser relies on: JavaScript's
    `String.prototype.split` on a one-character separator and
    `String.prototype.trim`, stated over `seq<char>`. */
module Text {

  /** ECMAScript WhiteSpace and LineTerminator code points: the set that
      `trim` strips. Every member lies in the Basic Multilingual Plane, so
      working on scalar values instead of UTF-16 code units changes nothing. */
  predicate IsSpace(c: char) {
    var n := c as int;
    || (9 <= n <= 13)          // tab, line feed, vertical tab, form feed, carriage return
    || n == 0x20 || n == 0xA0 || n == 0x1680
    || (0x2000 <= n <= 0x200A)
    || n == 0x2028 || n == 0x2029 || n == 0x202F || n == 0x205F
    || n == 0x3000 || n == 0xFEFF
  }

  predicate AllSpace(s: string) {
    forall i :: 0 <= i < |s| ==> IsSpace(s[i])
  }

  /** Neither end of `s` is whitespace: the shape of every result of `Trim`. */
  predicate IsTrimmed(s: string) {
    s == [] || (!IsSpace(s[0]) && !IsSpace(s[|s| - 1]))
  }

  /** Number of occurrences of `d` in `s`. */
  function Count(s: string, d: char): nat {
    if |s| == 0 then 0 else (if s[0] == d then 1 else 0) + Count(s[1..], d)
  }

  lemma {:induction false} CountZero(s: string, d: char)
    ensures Count(s, d) == 0 <==> d !in s
  {
    if |s| > 0 {
      CountZero(s[1..], d);
      assert s == [s[0]] + s[1..];
    }
  }

  lemma {:induction false} CountAppend(a: string, b: string, d: char)
    ensures Count(a + b, d) == Count(a, d) + Count(b, d)
  {
    if |a| > 0 {
      CountAppend(a[1..], b, d);
      assert (a + b)[1..] == a[1..] + b;
    } else {
      assert a + b == b;
    }
  }

  /** Length of the whitespace run at the start of `s`. */
  function LeadingSpace(s: string): (n: nat)
    ensures n <= |s|
    ensures AllSpace(s[..n])
    ensures n < |s| ==> !IsSpace(s[n])
  {
    if |s| == 0 || !IsSpace(s[0]) then 0
    else
      var m := LeadingSpace(s[1..]);
      assert forall k :: 1 <= k < 1 + m ==> s[k] == s[1..][..m][k - 1];
      1 + m
  }

  /** Length of the whitespace run at the end of `s`. */
  function TrailingSpace(s: string): (n: nat)
    ensures n <= |s|
    ensures AllSpace(s[|s| - n..])
    ensures n < |s| ==> !IsSpace(s[|s| - 1 - n])
  {
    if |s| == 0 || !IsSpace(s[|s| - 1]) then 0
    else
      var t := s[..|s| - 1];
      var m := TrailingSpace(t);
      assert forall k :: |s| - 1 - m <= k < |s| - 1 ==> s[k] == t[|t| - m..][k - (|t| - m)];
      1 + m
  }

  /** `String.prototype.trim`: `s` with its leading and trailing whitespace
      removed. The result is a trimmed slice of `s` surrounded by nothing
      but whitespace, and it is empty exactly when `s` is blank. */
  function Trim(s: string): (r: string)
    ensures IsTrimmed(r)
    ensures LeadingSpace(s) + |r| <= |s|
    ensures r == s[LeadingSpace(s)..LeadingSpace(s) + |r|]
    ensures AllSpace(s[LeadingSpace(s) + |r|..])
  {
    var i := LeadingSpace(s);
    var t := s[i..];
    var j := TrailingSpace(t);
    assert |t| - j > 0 ==> !IsSpace(t[|t| - j - 1]);
    assert t[|t| - j..] == s[i + (|t| - j)..];
    t[..|t| - j]
  }

  /** Trimming only removes characters. */
  lemma TrimChars(s: string, c: char)
    requires c in Trim(s)
    ensures c in s
  {
    var r := Trim(s);
    var i := LeadingSpace(s);
    var k :| 0 <= k < |r| && r[k] == c;
    assert s[i + k] == c;
  }

  /** Trimming yields the empty string exactly on blank input. */
  lemma TrimEmpty(s: string)
    ensures Trim(s) == [] <==> AllSpace(s)
  {
    var i := LeadingSpace(s);
    if i < |s| {
      assert s[i..][0] == s[i];
    } else {
      assert s[..i] == s;
    }
  }

  /** The whitespace run at the start is determined by its two defining facts. */
  lemma LeadingSpaceUnique(s: string, n: nat)
    requires n <= |s| && AllSpace(s[..n])
    requires n < |s| ==> !IsSpace(s[n])
    ensures LeadingSpace(s) == n
  {
    var m := LeadingSpace(s);
    assert forall k :: 0 <= k < n ==> s[..n][k] == s[k];
    assert forall k :: 0 <= k < m ==> s[..m][k] == s[k];
  }

  /** Reference characterisation of `Trim`: whatever whitespace padding
      surrounds a trimmed string, `Trim` removes exactly that padding. */
  lemma TrimUnique(pre: string, r: string, post: string)
    requires AllSpace(pre) && AllSpace(post) && IsTrimmed(r)
    ensures Trim(pre + r + post) == r
  {
    var s := pre + r + post;
    if r == [] {
      assert s == pre + post;
      assert AllSpace(s) by {
        forall k | 0 <= k < |s| ensures IsSpace(s[k]) {
          if k < |pre| { assert s[k] == pre[k]; } else { assert s[k] == post[k - |pre|]; }
        }
      }
    } else {
      assert s[..|pre|] == pre;
      assert s[|pre|] == r[0];
      LeadingSpaceUnique(s, |pre|);
      var e := |pre| + |r|;
      assert s[e - 1] == r[|r| - 1];
      assert forall k :: e <= k < |s| ==> s[k] == post[k - e];
      TrimEnd(s, e);
      assert s[|pre|..e] == r;
    }
  }

  /** If `s` holds a non-whitespace character just before position `e`
      and only whitespace from `e` on, its trim ends at `e`. */
  lemma TrimEnd(s: string, e: nat)
    requires LeadingSpace(s) < e <= |s|
    requires !IsSpace(s[e - 1])
    requires forall k :: e <= k < |s| ==> IsSpace(s[k])
    ensures LeadingSpace(s) + |Trim(s)| == e
  {
    var a := LeadingSpace(s);
    var t := Trim(s);
    assert forall k :: a + |t| <= k < |s| ==> s[k] == s[a + |t|..][k - a - |t|];
    assert forall k :: a <= k < a + |t| ==> s[k] == t[k - a];
  }

  /** A trimmed string is its own trim. */
  lemma TrimTrimmed(s: string)
    requires IsTrimmed(s)
    ensures Trim(s) == s
  {
    TrimUnique([], s, []);
    assert [] + s + [] == s;
  }

  /** Trimming twice is trimming once. */
  lemma TrimIdempotent(s: string)
    ensures Trim(Trim(s)) == Trim(s)
  {
    TrimUnique([], Trim(s), []);
    assert [] + Trim(s) + [] == Trim(s);
  }

  /** `String.prototype.split` on the one-character separator `d`: the
      maximal `d`-free pieces of `s`, in order. The empty string yields one
      empty piece, as in JavaScript. */
  function Split(s: string, d: char): (parts: seq<string>)
    ensures |parts| == Count(s, d) + 1
    ensures forall i :: 0 <= i < |parts| ==> d !in parts[i]
  {
    if |s| == 0 then [""]
    else if s[0] == d then [""] + Split(s[1..], d)
    else
      var rest := Split(s[1..], d);
      [[s[0]] + rest[0]] + rest[1..]
  }

  /** `Array.prototype.join` with the separator `d`: the inverse of `Split`. */
  function Join(parts: seq<string>, d: char): string {
    if |parts| == 0 then ""
    else if |parts| == 1 then parts[0]
    else parts[0] + [d] + Join(parts[1..], d)
  }

  /** Three pieces joined: the first, a separator, the second, a separator
      and the third. */
  lemma JoinThree(parts: seq<string>, d: char)
    requires |parts| == 3
    ensures Join(parts, d) == parts[0] + [d] + parts[1] + [d] + parts[2]
  {
    var rest := parts[1..];
    assert rest[1..] == [parts[2]];
    assert Join(rest, d) == parts[1] + [d] + parts[2];
    assert Join(parts, d) == parts[0] + [d] + (parts[1] + [d] + parts[2]);
  }

  /** Splitting loses nothing: joining the pieces gives the text back. */
  lemma {:induction false} JoinSplit(s: string, d: char)
    ensures Join(Split(s, d), d) == s
  {
    if |s| == 0 {
    } else if s[0] == d {
      var rest := Split(s[1..], d);
      JoinSplit(s[1..], d);
      assert ([""] + rest)[1..] == rest;
      assert s == [d] + s[1..];
    } else {
      var rest := Split(s[1..], d);
      JoinSplit(s[1..], d);
      var parts := [[s[0]] + rest[0]] + rest[1..];
      assert parts[1..] == rest[1..];
      if |rest| == 1 {
        assert s == [s[0]] + s[1..];
      } else {
        assert Join(rest, d) == rest[0] + [d] + Join(rest[1..], d);
        assert s == [s[0]] + s[1..];
      }
    }
  }

  /** Any non-empty sequence of `d`-free pieces is recovered by splitting
      its join: `Split` is the unique such decomposition of its input. */
  lemma {:induction false} SplitJoin(parts: seq<string>, d: char)
    requires |parts| >= 1
    requires forall i :: 0 <= i < |parts| ==> d !in parts[i]
    ensures Split(Join(parts, d), d) == parts
  {
    if |parts| == 1 {
      SplitNoSeparator(parts[0], d);
    } else {
      var tail := Join(parts[1..], d);
      SplitJoin(parts[1..], d);
      SplitAppend(parts[0], tail, d);
      SplitNoSeparator(parts[0], d);
      assert [parts[0]] + parts[1..] == parts;
    }
  }

  /** A separator-free string splits into itself alone. */
  lemma {:induction false} SplitNoSeparator(s: string, d: char)
    requires d !in s
    ensures Split(s, d) == [s]
  {
    if |s| > 0 {
      assert d !in s[1..] by { assert forall c :: c in s[1..] ==> c in s; }
      SplitNoSeparator(s[1..], d);
      assert s == [s[0]] + s[1..];
    }
  }

  /** Splitting distributes over gluing two strings with a separator. */
  lemma {:induction false} SplitAppend(a: string, b: string, d: char)
    ensures Split(a + [d] + b, d) == Split(a, d) + Split(b, d)
  {
    var s := a + [d] + b;
    if |a| == 0 {
      assert s == [d] + b;
      assert s[1..] == b;
    } else {
      assert s[0] == a[0];
      assert s[1..] == a[1..] + [d] + b;
      SplitAppend(a[1..], b, d);
      if a[0] != d {
        ExtendFirst(Split(a[1..], d), Split(b, d), a[0]);
      }
    }
  }

  /** Prefixing a character to the first piece commutes with appending
      further pieces. */
  lemma ExtendFirst(left: seq<string>, right: seq<string>, c: char)
    requires |left| >= 1
    ensures [[c] + (left + right)[0]] + (left + right)[1..] == ([[c] + left[0]] + left[1..]) + right
  {
    assert (left + right)[0] == left[0];
    assert (left + right)[1..] == left[1..] + right;
  }

  /** Two separator-free pieces glued by a separator split back into
      those two pieces. */
  lemma SplitTwo(y: string, z: string, d: char)
    requires d !in y && d !in z
    ensures Split(y + [d] + z, d) == [y, z]
  {
    SplitAppend(y, z, d);
    SplitNoSeparator(y, d);
    SplitNoSeparator(z, d);
  }

  /** Three separator-free pieces glued by two separators split back into
      those three pieces. */
  lemma SplitThree(x: string, y: string, z: string, d: char)
    requires d !in x && d !in y && d !in z
    ensures Split(x + [d] + y + [d] + z, d) == [x, y, z]
  {
    var yz := y + [d] + z;
    assert x + [d] + y + [d] + z == x + [d] + yz;
    assert Split(yz, d) == [y, z] by {
      SplitTwo(y, z, d);
    }
    assert Split(x + [d] + yz, d) == [x] + [y, z] by {
      SplitAppend(x, yz, d);
      SplitNoSeparator(x, d);
    }
    assert [x] + [y, z] == [x, y, z];
  }
}
