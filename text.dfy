/** The handful of Python string operations the generator relies on:
    `str.strip()`, `str.strip(chars)`, `str.lower()` and the substring test `p in s`. */
module Text {

  /** Python's `str.isspace()` on one character: exactly the code points that
      `str.strip()` without an argument removes. */
  predicate IsSpace(c: char)
  {
    var n := c as int;
    || (0x09 <= n <= 0x0D)
    || (0x1C <= n <= 0x20)
    || n == 0x85 || n == 0xA0 || n == 0x1680
    || (0x2000 <= n <= 0x200A)
    || n == 0x2028 || n == 0x2029 || n == 0x202F || n == 0x205F || n == 0x3000
  }

  /** The one character that `strip('"')` removes. */
  predicate IsQuote(c: char)
  {
    c == '"'
  }

  /** True iff every character of `s` satisfies `p`. */
  predicate All(s: string, p: char -> bool)
  {
    forall k :: 0 <= k < |s| ==> p(s[k])
  }

  /** `s.lstrip(chars)`: drops leading characters while they are in the set. */
  function StripLeft(s: string, drop: char -> bool): (r: string)
    ensures |r| <= |s| && r == s[|s| - |r|..]
    ensures All(s[..|s| - |r|], drop)
    ensures r != [] ==> !drop(r[0])
  {
    if s != [] && drop(s[0]) then StripLeft(s[1..], drop) else s
  }

  /** `s.rstrip(chars)`: drops trailing characters while they are in the set. */
  function StripRight(s: string, drop: char -> bool): (r: string)
    ensures |r| <= |s| && r == s[..|r|]
    ensures All(s[|r|..], drop)
    ensures r != [] ==> !drop(r[|r| - 1])
  {
    if s != [] && drop(s[|s| - 1]) then StripRight(s[..|s| - 1], drop) else s
  }

  /** `s.strip(chars)`: the slice of `s` left once every leading and every
      trailing character of the set is gone. */
  function Strip(s: string, drop: char -> bool): (r: string)
    ensures |r| <= |s|
    ensures r == [] || (!drop(r[0]) && !drop(r[|r| - 1]))
  {
    StripRight(StripLeft(s, drop), drop)
  }

  /** Leading set characters in front of a text that does not start with one
      are exactly what `lstrip` removes. */
  lemma {:induction false} StripLeftPadded(front: string, rest: string, drop: char -> bool)
    requires All(front, drop)
    requires rest == [] || !drop(rest[0])
    ensures StripLeft(front + rest, drop) == rest
  {
    if front == [] {
      assert front + rest == rest;
    } else {
      assert (front + rest)[0] == front[0];
      assert (front + rest)[1..] == front[1..] + rest;
      StripLeftPadded(front[1..], rest, drop);
    }
  }

  /** Trailing set characters after a text that does not end with one are
      exactly what `rstrip` removes. */
  lemma {:induction false} StripRightPadded(rest: string, back: string, drop: char -> bool)
    requires All(back, drop)
    requires rest == [] || !drop(rest[|rest| - 1])
    ensures StripRight(rest + back, drop) == rest
    decreases |back|
  {
    if back == [] {
      assert rest + back == rest;
    } else {
      var n := |back| - 1;
      assert (rest + back)[|rest + back| - 1] == back[n];
      assert (rest + back)[..|rest + back| - 1] == rest + back[..n];
      StripRightPadded(rest, back[..n], drop);
    }
  }

  /** Padding made of set characters around a core whose ends are not in the
      set is exactly what the strip removes. */
  lemma StripPadded(front: string, core: string, back: string, drop: char -> bool)
    requires All(front, drop) && All(back, drop)
    requires core == [] || (!drop(core[0]) && !drop(core[|core| - 1]))
    ensures Strip(front + core + back, drop) == core
  {
    if core == [] {
      assert front + core + back == (front + back) + [];
      assert All(front + back, drop) by {
        forall k | 0 <= k < |front + back|
          ensures drop((front + back)[k])
        {
          if k >= |front| {
            assert (front + back)[k] == back[k - |front|];
          }
        }
      }
      StripLeftPadded(front + back, [], drop);
    } else {
      assert front + core + back == front + (core + back);
      assert (core + back)[0] == core[0];
      StripLeftPadded(front, core + back, drop);
      StripRightPadded(core, back, drop);
    }
  }

  /** The strip is empty exactly when every character of the input is in the set. */
  lemma StripEmptyIff(s: string, drop: char -> bool)
    ensures Strip(s, drop) == [] <==> All(s, drop)
  {
    if All(s, drop) {
      StripPadded(s, [], [], drop);
      assert s + [] + [] == s;
    }
    var l := StripLeft(s, drop);
    if Strip(s, drop) == [] {
      assert l[0..] == l;
      var i := |s| - |l|;
      forall k | 0 <= k < |s|
        ensures drop(s[k])
      {
        if k < i {
          assert s[..i][k] == s[k];
        } else {
          assert l[k - i] == s[k];
        }
      }
    }
  }

  /** The strip only cuts characters off, so it keeps an ASCII text ASCII. */
  lemma StripKeepsAscii(s: string, drop: char -> bool)
    requires IsAscii(s)
    ensures IsAscii(Strip(s, drop))
  {
    var l := StripLeft(s, drop);
    var i := |s| - |l|;
    assert l == s[i..];
    assert IsAscii(l) by {
      forall k | 0 <= k < |l|
        ensures l[k] as int < 128
      {
        assert l[k] == s[i + k];
      }
    }
    var r := StripRight(l, drop);
    assert r == l[..|r|];
  }

  /** The ASCII part of Python's `str.lower()` on one character. */
  function LowerChar(c: char): char
  {
    if 'A' <= c <= 'Z' then (c as int + 32) as char else c
  }

  /** `str.lower()`, restricted to ASCII upper-case letters: every character is lowered in place. */
  function Lower(s: string): (r: string)
    ensures |r| == |s|
    ensures forall i :: 0 <= i < |s| ==> r[i] == LowerChar(s[i])
  {
    seq(|s|, i requires 0 <= i < |s| => LowerChar(s[i]))
  }

  /** Lowering works character by character, so it distributes over concatenation. */
  lemma LowerAppend(a: string, b: string)
    ensures Lower(a + b) == Lower(a) + Lower(b)
  {
    assert forall i :: 0 <= i < |a + b| ==> Lower(a + b)[i] == (Lower(a) + Lower(b))[i];
  }

  /** `p` occurs in `s` starting at position `i`. */
  predicate OccursAt(s: string, p: string, i: int)
  {
    0 <= i && i + |p| <= |s| && s[i..i + |p|] == p
  }

  /** Python's `p in s` for strings, as a left-to-right search. */
  predicate Contains(s: string, p: string)
    decreases |s|
  {
    (|p| <= |s| && s[..|p|] == p) || (s != [] && Contains(s[1..], p))
  }

  /** The search finds `p` exactly when `p` occurs at some position of `s`. */
  lemma {:induction false} ContainsIff(s: string, p: string)
    ensures Contains(s, p) <==> exists i :: OccursAt(s, p, i)
    decreases |s|
  {
    if |p| <= |s| && s[..|p|] == p {
      assert OccursAt(s, p, 0);
    } else if s != [] {
      ContainsIff(s[1..], p);
      if Contains(s[1..], p) {
        var j :| OccursAt(s[1..], p, j);
        assert s[1..][j..j + |p|] == s[j + 1..j + 1 + |p|];
        assert OccursAt(s, p, j + 1);
      }
      if exists i :: OccursAt(s, p, i) {
        var i :| OccursAt(s, p, i);
        assert i != 0;
        assert s[1..][i - 1..i - 1 + |p|] == s[i..i + |p|];
        assert OccursAt(s[1..], p, i - 1);
      }
    }
  }

  /** An occurrence inside `middle` is an occurrence in any text that embeds it. */
  lemma ContainsInside(front: string, middle: string, back: string, p: string)
    requires Contains(middle, p)
    ensures Contains(front + middle + back, p)
  {
    ContainsIff(middle, p);
    var i :| OccursAt(middle, p, i);
    var s := front + middle + back;
    assert s[|front| + i..|front| + i + |p|] == middle[i..i + |p|];
    assert OccursAt(s, p, |front| + i);
    ContainsIff(s, p);
  }

  /** An occurrence of `p` that starts after `front`'s last `p[0]`, ends before
      `back`'s first `p[|p| - 1]` and cannot start inside `front` lies inside
      `middle`: the embedding neither adds nor removes occurrences. */
  lemma ContainsFramed(front: string, middle: string, back: string, p: string)
    requires |p| >= 2 && NoPair(front, p[0], p[1])
    requires front == [] || front[|front| - 1] != p[0]
    requires forall k :: 0 <= k < |back| ==> back[k] != p[|p| - 1]
    ensures Contains(front + middle + back, p) <==> Contains(middle, p)
  {
    var s := front + middle + back;
    ContainsIff(s, p);
    ContainsIff(middle, p);
    if Contains(s, p) {
      var i :| OccursAt(s, p, i);
      assert s[i..i + |p|][0] == s[i] && s[i..i + |p|][1] == s[i + 1];
      assert s[i..i + |p|][|p| - 1] == s[i + |p| - 1];
      assert i >= |front|;
      assert i + |p| <= |front| + |middle|;
      assert middle[i - |front|..i - |front| + |p|] == s[i..i + |p|];
      assert OccursAt(middle, p, i - |front|);
    } else if Contains(middle, p) {
      ContainsInside(front, middle, back, p);
    }
  }

  /** No `a` in `s` is immediately followed by `b`. */
  predicate NoPair(s: string, a: char, b: char)
  {
    forall i :: 0 <= i < |s| - 1 ==> !(s[i] == a && s[i + 1] == b)
  }

  /** A text without the pair `p[0] p[1]` cannot contain `p`. */
  lemma NoPairExcludes(s: string, p: string)
    requires |p| >= 2 && NoPair(s, p[0], p[1])
    ensures !Contains(s, p)
  {
    ContainsIff(s, p);
    forall i
      ensures !OccursAt(s, p, i)
    {
      if 0 <= i && i + |p| <= |s| {
        assert s[i..i + |p|][0] == s[i] && s[i..i + |p|][1] == s[i + 1];
      }
    }
  }

  /** Joining keeps the pair out when the second text does not start with `b`. */
  lemma NoPairJoin(x: string, y: string, a: char, b: char)
    requires NoPair(x, a, b) && NoPair(y, a, b)
    requires y == [] || y[0] != b
    ensures NoPair(x + y, a, b)
  {
    forall i | 0 <= i < |x + y| - 1
      ensures !((x + y)[i] == a && (x + y)[i + 1] == b)
    {
      if i + 1 < |x| {
        assert (x + y)[i] == x[i] && (x + y)[i + 1] == x[i + 1];
      } else if i + 1 == |x| {
        assert (x + y)[i + 1] == y[0];
      } else {
        assert (x + y)[i] == y[i - |x|] && (x + y)[i + 1] == y[i + 1 - |x|];
      }
    }
  }

  /** Adjacent string literals joined in order, as Python joins them. */
  function Concat(parts: seq<string>): string
  {
    if parts == [] then [] else Concat(parts[..|parts| - 1]) + parts[|parts| - 1]
  }

  /** Part `k` has no `a` right before `b` and, unless it comes first, does not start with `b`. */
  predicate PartClear(parts: seq<string>, k: int, a: char, b: char)
    requires 0 <= k < |parts|
  {
    NoPair(parts[k], a, b) && (k == 0 || parts[k] == [] || parts[k][0] != b)
  }

  /** Parts that are each clear of the pair join into a text clear of it. */
  lemma {:induction false} ConcatNoPair(parts: seq<string>, a: char, b: char)
    requires forall k :: 0 <= k < |parts| ==> PartClear(parts, k, a, b)
    ensures NoPair(Concat(parts), a, b)
    decreases |parts|
  {
    if parts != [] {
      var n := |parts| - 1;
      var init := parts[..n];
      forall k | 0 <= k < |init|
        ensures PartClear(init, k, a, b)
      {
        assert init[k] == parts[k] && PartClear(parts, k, a, b);
      }
      ConcatNoPair(init, a, b);
      assert PartClear(parts, n, a, b);
      if n == 0 {
        assert Concat(parts) == parts[0];
      } else {
        NoPairJoin(Concat(init), parts[n], a, b);
      }
    }
  }

  /** The check `all(ord(c) < 128 for c in s)` used on image prompts. */
  predicate IsAscii(s: string)
  {
    forall k :: 0 <= k < |s| ==> s[k] as int < 128
  }
}
