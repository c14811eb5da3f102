/**
 * String helpers with the semantics of the Python string methods the
 * certificate code calls: `str.replace`, `str.strip(chars)` and `str.lower`.
 */
module Text {

  /** `pat` occurs in `s` starting at index `i`. */
  predicate OccursAt(s: string, pat: string, i: int)
  {
    0 <= i && i + |pat| <= |s| && s[i..i + |pat|] == pat
  }

  predicate Contains(s: string, pat: string)
  {
    exists i :: 0 <= i <= |s| && OccursAt(s, pat, i)
  }

  /**
   * Python `s.replace(pat, rep)` for a non-empty `pat`: every non-overlapping
   * occurrence, found scanning from the left, is replaced.
   */
  function Replace(s: string, pat: string, rep: string): (r: string)
    requires |pat| > 0
    ensures |rep| <= |pat| ==> |r| <= |s|
    decreases |s|
  {
    if |s| < |pat| then s
    else if s[..|pat|] == pat then rep + Replace(s[|pat|..], pat, rep)
    else [s[0]] + Replace(s[1..], pat, rep)
  }

  /** `s.replace('px', '')`, the unit stripping applied to position values. */
  function RemovePx(s: string): (r: string)
    ensures |r| <= |s|
  {
    Replace(s, "px", "")
  }

  /** An occurrence in a suffix is an occurrence in the whole string. */
  lemma OccursInSuffix(s: string, pat: string, k: nat, i: int)
    requires k <= |s| && OccursAt(s[k..], pat, i)
    ensures OccursAt(s, pat, i + k)
  {
    assert s[k..][i..i + |pat|] == s[i + k..i + k + |pat|];
  }

  /** Replace changes nothing in a string where the pattern does not occur. */
  lemma {:induction false} ReplaceAbsent(s: string, pat: string, rep: string)
    requires |pat| > 0 && !Contains(s, pat)
    ensures Replace(s, pat, rep) == s
    decreases |s|
  {
    if |s| < |pat| {
    } else {
      assert !OccursAt(s, pat, 0);
      assert s[..|pat|] != pat;
      forall i | OccursAt(s[1..], pat, i) ensures false {
        OccursInSuffix(s, pat, 1, i);
      }
      ReplaceAbsent(s[1..], pat, rep);
      assert s == [s[0]] + s[1..];
    }
  }

  /** Removing every "px" shortens a string exactly when "px" occurs in it. */
  lemma {:induction false} RemovePxShortens(s: string)
    requires Contains(s, "px")
    ensures |RemovePx(s)| < |s|
    decreases |s|
  {
    var i :| 0 <= i <= |s| && OccursAt(s, "px", i);
    assert |"px"| == 2;
    if s[..2] == "px" {
      assert RemovePx(s) == "" + RemovePx(s[2..]);
    } else {
      assert 0 <= i && i + 2 <= |s|;
      assert s[i..i + 2] == "px";
      assert i != 0;
      assert s[1..][i - 1..i + 1] == s[i..i + 2];
      assert OccursAt(s[1..], "px", i - 1);
      RemovePxShortens(s[1..]);
    }
  }

  /** RemovePx is the identity exactly on strings without "px". */
  lemma RemovePxIdentityIff(s: string)
    ensures RemovePx(s) == s <==> !Contains(s, "px")
  {
    if Contains(s, "px") {
      RemovePxShortens(s);
    } else {
      ReplaceAbsent(s, "px", "");
    }
  }

  /** One step of the left-to-right scan of RemovePx. */
  lemma RemovePxStep(s: string)
    requires |s| >= 2
    ensures RemovePx(s) == if s[..2] == "px" then RemovePx(s[2..]) else [s[0]] + RemovePx(s[1..])
  {
    if s[..2] == "px" {
      assert RemovePx(s) == "" + RemovePx(s[2..]);
    }
  }

  /**
   * RemovePx distributes over a concatenation unless an occurrence straddles
   * the seam (a 'p' at the end of `a` meeting an 'x' at the start of `b`).
   */
  lemma {:induction false} RemovePxConcat(a: string, b: string)
    requires a == [] || b == [] || a[|a| - 1] != 'p' || b[0] != 'x'
    ensures RemovePx(a + b) == RemovePx(a) + RemovePx(b)
    decreases |a|
  {
    var ab := a + b;
    if a == [] {
      assert ab == b;
    } else if b == [] {
      assert ab == a;
      assert RemovePx(b) == [];
    } else if |a| == 1 {
      assert RemovePx(a) == a;
      assert ab[..2] != "px" by {
        assert ab[..2][0] == a[0] && ab[..2][1] == b[0];
      }
      assert ab[1..] == b;
      RemovePxStep(ab);
    } else {
      RemovePxStep(a);
      RemovePxStep(ab);
      assert ab[..2] == a[..2];
      if a[..2] == "px" {
        assert ab[2..] == a[2..] + b;
        RemovePxConcat(a[2..], b);
      } else {
        assert ab[1..] == a[1..] + b;
        RemovePxConcat(a[1..], b);
      }
    }
  }

  /** A trailing "px" unit is always removed: "16px" cleans to what "16" does. */
  lemma RemovePxUnitSuffix(s: string)
    ensures RemovePx(s + "px") == RemovePx(s)
  {
    RemovePxConcat(s, "px");
    assert RemovePx("px") == "" + RemovePx("");
  }

  /** A string without the letter 'x' contains no "px" and is left alone. */
  lemma RemovePxKeepsXFree(v: string)
    requires forall i :: 0 <= i < |v| ==> v[i] != 'x'
    ensures !Contains(v, "px") && RemovePx(v) == v
  {
    forall i | 0 <= i <= |v| ensures !OccursAt(v, "px", i) {
      if i + 2 <= |v| {
        assert v[i..i + 2][1] == v[i + 1] != 'x';
      }
    }
    ReplaceAbsent(v, "px", "");
  }

  /** One pass can leave a "px" behind, so cleaning twice is not cleaning once. */
  lemma RemovePxNotIdempotent()
    ensures RemovePx("ppxx") == "px"
    ensures RemovePx(RemovePx("ppxx")) == ""
  {
    var s := "ppxx";
    assert s[..2][1] == 'p';
    assert s[..2] != "px";
    assert s[1..] == "pxx";
    assert s[1..][..2] == "px";
    assert s[1..][2..] == "x";
    assert RemovePx("x") == "x";
    assert RemovePx("px") == "" + RemovePx("");
  }

  /** Every character of `t` is one of `cs`. */
  predicate AllIn(t: string, cs: set<char>)
  {
    forall i :: 0 <= i < |t| ==> t[i] in cs
  }

  lemma AllInConcat(s: string, q: string, cs: set<char>)
    requires AllIn(s, cs) && AllIn(q, cs)
    ensures AllIn(s + q, cs)
  {
    assert forall k :: 0 <= k < |s + q| ==> (s + q)[k] == if k < |s| then s[k] else q[k - |s|];
  }

  /** Python `s.lstrip(chars)`: drop the longest prefix made of `cs`. */
  function StripLeft(s: string, cs: set<char>): (r: string)
    ensures |r| <= |s| && r == s[|s| - |r|..]
    ensures AllIn(s[..|s| - |r|], cs)
    ensures r == [] || r[0] !in cs
    decreases |s|
  {
    if s != [] && s[0] in cs then
      var t := s[1..];
      var r := StripLeft(t, cs);
      assert forall k :: 1 <= k < |s| - |r| ==> s[k] == t[..|t| - |r|][k - 1];
      r
    else
      assert s[..0] == [];
      s
  }

  /** Python `s.rstrip(chars)`: drop the longest suffix made of `cs`. */
  function StripRight(s: string, cs: set<char>): (r: string)
    ensures |r| <= |s| && r == s[..|r|]
    ensures AllIn(s[|r|..], cs)
    ensures r == [] || r[|r| - 1] !in cs
    decreases |s|
  {
    if s != [] && s[|s| - 1] in cs then
      var t := s[..|s| - 1];
      var r := StripRight(t, cs);
      assert forall k :: |r| <= k < |s| - 1 ==> s[k] == t[|r|..][k - |r|];
      r
    else
      assert s[|s|..] == [];
      s
  }

  /** Python `s.strip(chars)`: `lstrip` then `rstrip`. */
  function Strip(s: string, cs: set<char>): string
  {
    StripRight(StripLeft(s, cs), cs)
  }

  /**
   * Strip keeps the infix `s[i..j]` left once every leading and trailing
   * character in `cs` is dropped, and neither end of what it keeps is in `cs`.
   */
  lemma StripIsInfix(s: string, cs: set<char>)
    ensures exists i, j :: 0 <= i <= j <= |s| && Strip(s, cs) == s[i..j] && AllIn(s[..i], cs) && AllIn(s[j..], cs)
    ensures Strip(s, cs) == [] || (Strip(s, cs)[0] !in cs && Strip(s, cs)[|Strip(s, cs)| - 1] !in cs)
  {
    var l := StripLeft(s, cs);
    var r := StripRight(l, cs);
    var i, j := |s| - |l|, |s| - |l| + |r|;
    assert r == s[i..j];
    assert s[j..] == l[|r|..];
    assert AllIn(s[..i], cs) && AllIn(s[j..], cs);
    assert r == [] || r[0] == l[0];
  }

  /** StripLeft is the identity on an empty string or one whose first character is not in `cs`. */
  lemma {:induction false} StripLeftNoop(s: string, cs: set<char>)
    requires s == [] || s[0] !in cs
    ensures StripLeft(s, cs) == s
  {
  }

  /** Strip leaves a string alone when neither end is in `cs`. */
  lemma StripNoop(s: string, cs: set<char>)
    requires s == [] || (s[0] !in cs && s[|s| - 1] !in cs)
    ensures Strip(s, cs) == s
  {
    StripLeftNoop(s, cs);
  }

  /** Prepending or appending characters of `cs` does not change the stripped text. */
  lemma {:induction false} StripLeftPrefix(p: string, s: string, cs: set<char>)
    requires AllIn(p, cs)
    ensures StripLeft(p + s, cs) == StripLeft(s, cs)
    decreases |p|
  {
    if p != [] {
      assert (p + s)[0] == p[0];
      assert (p + s)[1..] == p[1..] + s;
      StripLeftPrefix(p[1..], s, cs);
    } else {
      assert p + s == s;
    }
  }

  lemma {:induction false} StripRightSuffix(s: string, q: string, cs: set<char>)
    requires AllIn(q, cs)
    ensures StripRight(s + q, cs) == StripRight(s, cs)
    decreases |q|
  {
    if q != [] {
      assert (s + q)[|s + q| - 1] == q[|q| - 1];
      assert (s + q)[..|s + q| - 1] == s + q[..|q| - 1];
      StripRightSuffix(s, q[..|q| - 1], cs);
    } else {
      assert s + q == s;
    }
  }

  lemma {:induction false} StripLeftSuffix(s: string, q: string, cs: set<char>)
    requires StripLeft(s, cs) != []
    ensures StripLeft(s + q, cs) == StripLeft(s, cs) + q
    decreases |s|
  {
    var sq := s + q;
    assert sq[0] == s[0];
    if s[0] in cs {
      assert sq[1..] == s[1..] + q;
      StripLeftSuffix(s[1..], q, cs);
      assert StripLeft(sq, cs) == StripLeft(sq[1..], cs);
    } else {
      assert StripLeft(sq, cs) == sq;
    }
  }

  /** A string made only of characters of `cs` strips to nothing from the left. */
  lemma {:induction false} StripLeftAll(t: string, cs: set<char>)
    requires AllIn(t, cs)
    ensures StripLeft(t, cs) == []
    decreases |t|
  {
    if t != [] {
      assert t[0] in cs;
      assert forall k :: 0 <= k < |t| - 1 ==> t[1..][k] == t[k + 1];
      StripLeftAll(t[1..], cs);
    }
  }

  /** Wrapping a string in characters of `cs` does not change what Strip keeps. */
  lemma StripWrapped(p: string, s: string, q: string, cs: set<char>)
    requires AllIn(p, cs) && AllIn(q, cs)
    ensures Strip(p + s + q, cs) == Strip(s, cs)
  {
    assert p + s + q == p + (s + q);
    StripLeftPrefix(p, s + q, cs);
    var l := StripLeft(s, cs);
    if l == [] {
      assert s[..|s| - |l|] == s;
      AllInConcat(s, q, cs);
      StripLeftAll(s + q, cs);
    } else {
      StripLeftSuffix(s, q, cs);
      StripRightSuffix(l, q, cs);
    }
  }

  /** ASCII lower-casing of one character. */
  function LowerChar(c: char): char
  {
    if 'A' <= c <= 'Z' then (c as int + 32) as char else c
  }

  /** Python `s.lower()` restricted to ASCII letters. */
  function Lower(s: string): (r: string)
    ensures |r| == |s|
    ensures forall i :: 0 <= i < |s| ==> r[i] == LowerChar(s[i])
  {
    seq(|s|, i requires 0 <= i < |s| => LowerChar(s[i]))
  }
}
