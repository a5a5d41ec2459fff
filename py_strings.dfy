/** The two Python string operations the cleaning code relies on:
    `str.strip()` with no argument and `str.replace(' ', '')`. */
module PyStrings {

  /** The characters for which Python's `str.isspace()` holds; `str.strip()`
      with no argument removes exactly these from both ends. */
  predicate IsSpace(c: char)
  {
    || ('\t' <= c <= '\r')
    || ('\U{1c}' <= c <= ' ')
    || c == '\U{85}' || c == '\U{a0}' || c == '\U{1680}'
    || ('\U{2000}' <= c <= '\U{200a}')
    || c == '\U{2028}' || c == '\U{2029}' || c == '\U{202f}' || c == '\U{205f}'
    || c == '\U{3000}'
  }

  ghost predicate AllSpace(s: string)
  {
    forall k :: 0 <= k < |s| ==> IsSpace(s[k])
  }

  /** No whitespace at either end: what `strip()` leaves behind. */
  ghost predicate Trimmed(s: string)
  {
    s == [] || (!IsSpace(s[0]) && !IsSpace(s[|s| - 1]))
  }

  /** `s.lstrip()`: `s` without its leading whitespace. */
  function StripLeft(s: string): string
  {
    if s != [] && IsSpace(s[0]) then StripLeft(s[1..]) else s
  }

  /** `s.rstrip()`: `s` without its trailing whitespace. */
  function StripRight(s: string): string
  {
    if s != [] && IsSpace(s[|s| - 1]) then StripRight(s[..|s| - 1]) else s
  }

  /** `lstrip()` keeps the longest suffix that does not start with whitespace. */
  lemma {:induction false} StripLeftSpec(s: string)
    ensures var r := StripLeft(s);
      && |r| <= |s| && r == s[|s| - |r|..]
      && AllSpace(s[..|s| - |r|])
      && (r == [] || !IsSpace(r[0]))
    decreases |s|
  {
    if s != [] && IsSpace(s[0]) {
      var t := s[1..];
      StripLeftSpec(t);
      var r := StripLeft(t);
      assert t[|t| - |r|..] == s[|s| - |r|..];
      var u := s[..|s| - |r|];
      forall k | 0 <= k < |u| ensures IsSpace(u[k]) {
        if k > 0 {
          assert u[k] == t[..|t| - |r|][k - 1];
        }
      }
    }
  }

  /** `rstrip()` keeps the longest prefix that does not end with whitespace. */
  lemma {:induction false} StripRightSpec(s: string)
    ensures var r := StripRight(s);
      && |r| <= |s| && r == s[..|r|]
      && AllSpace(s[|r|..])
      && (r == [] || !IsSpace(r[|r| - 1]))
    decreases |s|
  {
    if s != [] && IsSpace(s[|s| - 1]) {
      var t := s[..|s| - 1];
      StripRightSpec(t);
      var r := StripRight(t);
      assert t[..|r|] == s[..|r|];
      var u := s[|r|..];
      forall k | 0 <= k < |u| ensures IsSpace(u[k]) {
        if k < |u| - 1 {
          assert u[k] == t[|r|..][k];
        }
      }
    }
  }

  /** `s.strip()`: `s` with all leading and trailing whitespace removed. */
  function Strip(s: string): string
  {
    StripRight(StripLeft(s))
  }

  /** `strip()` removes whitespace from both ends and nothing else: its
      result is a slice of `s` with only whitespace around it, has no
      whitespace at either end, and is empty exactly when `s` is all
      whitespace. */
  lemma StripSpec(s: string)
    ensures var r := Strip(s);
      && Trimmed(r)
      && (r == [] <==> AllSpace(s))
      && exists i :: 0 <= i <= |s| - |r| && r == s[i..i + |r|] && AllSpace(s[..i]) && AllSpace(s[i + |r|..])
  {
    var l := StripLeft(s);
    var r := StripRight(l);
    StripLeftSpec(s);
    StripRightSpec(l);
    var i := |s| - |l|;
    assert r == s[i..i + |r|];
    assert AllSpace(s[i + |r|..]) by {
      assert s[i + |r|..] == l[|r|..];
    }
    if r == [] {
      assert l == [];
      forall k | 0 <= k < |s| ensures IsSpace(s[k]) {
        assert s[k] == s[..i][k];
      }
    }
    if r != [] {
      assert r[0] == l[0];
    }
  }

  /** A string without whitespace at either end is its own strip. */
  lemma StripTrimmed(s: string)
    requires Trimmed(s)
    ensures Strip(s) == s
  {
    assert StripLeft(s) == s;
    assert StripRight(s) == s;
  }

  /** `s.replace(' ', '')`: every U+0020 removed, every other character kept
      in order (tabs and other whitespace are not removed). */
  function RemoveSpaces(s: string): string
  {
    if s == [] then [] else (if s[0] == ' ' then [] else [s[0]]) + RemoveSpaces(s[1..])
  }

  /** `replace(' ', '')` drops exactly the spaces: none is left, every other
      character keeps its count, and a string without spaces is unchanged. */
  lemma {:induction false} RemoveSpacesSpec(s: string)
    ensures var r := RemoveSpaces(s);
      && ' ' !in r
      && |r| == |s| - multiset(s)[' ']
      && (forall c :: c != ' ' ==> multiset(r)[c] == multiset(s)[c])
      && (' ' !in s ==> r == s)
    decreases |s|
  {
    if s != [] {
      RemoveSpacesSpec(s[1..]);
      assert s == [s[0]] + s[1..];
    }
  }

  /** `replace(' ', '')` works character by character, so it distributes
      over concatenation. */
  lemma {:induction false} RemoveSpacesAppend(a: string, b: string)
    ensures RemoveSpaces(a + b) == RemoveSpaces(a) + RemoveSpaces(b)
    decreases |a|
  {
    if a != [] {
      assert (a + b)[1..] == a[1..] + b;
      RemoveSpacesAppend(a[1..], b);
    } else {
      assert a + b == b;
    }
  }
}
