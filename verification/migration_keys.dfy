/** What the normalized form of an old id is, without trimming or changing case: the text between the outer spaces, with
    small letters, so that two texts get the same key exactly if they agree up to outer spaces and case. */
module MigrationKeys {
  import opened MigrationStore

  /** White space and line ends of ECMAScript. */
  const SPACES: string :=
    "\t\n\U{B}\U{C}\r \U{A0}\U{1680}\U{2000}\U{2001}\U{2002}\U{2003}\U{2004}\U{2005}\U{2006}\U{2007}\U{2008}\U{2009}\U{200A}\U{2028}\U{2029}\U{202F}\U{205F}\U{3000}\U{FEFF}"
  const UPPER: string := "ABCDEFGHIJKLMNOPQRSTUVWXYZ"
  const LOWER: string := "abcdefghijklmnopqrstuvwxyz"

  predicate Blank(s: string) {
    forall i :: 0 <= i < |s| ==> s[i] in SPACES
  }

  /** Equal, or the two forms of one letter. */
  predicate SameLetter(c: char, d: char) {
    c == d || exists k :: 0 <= k < 26 && ((c == UPPER[k] && d == LOWER[k]) || (c == LOWER[k] && d == UPPER[k]))
  }

  predicate SameButCase(s: string, t: string) {
    |s| == |t| && forall i :: 0 <= i < |s| ==> SameLetter(s[i], t[i])
  }

  /** No space at either end, and no capital letter. */
  predicate IsNormal(n: string) {
    n != [] && n[0] !in SPACES && n[|n| - 1] !in SPACES && forall i :: 0 <= i < |n| ==> n[i] !in UPPER
  }

  /** `m` with spaces around it. */
  ghost predicate Framed(s: string, m: string) {
    exists i, j :: 0 <= i <= j <= |s| && m == s[i..j] && Blank(s[..i]) && Blank(s[j..])
  }

  // ---------------------------------------------------------------- one character

  lemma SpacesListed(c: char)
    ensures IsSpace(c) <==> c in SPACES
  {}

  lemma LetterAt(k: nat)
    requires k < 26
    ensures UPPER[k] as int == 65 + k
    ensures LOWER[k] as int == 97 + k
  {}

  lemma SameLetterIs(c: char, d: char)
    ensures SameLetter(c, d) <==>
            c == d || ('A' <= c <= 'Z' && c as int + 32 == d as int) || ('A' <= d <= 'Z' && d as int + 32 == c as int)
  {
    if SameLetter(c, d) && c != d {
      var k :| 0 <= k < 26 && ((c == UPPER[k] && d == LOWER[k]) || (c == LOWER[k] && d == UPPER[k]));
      LetterAt(k);
    } else if 'A' <= c <= 'Z' {
      LetterAt(c as int - 65);
    } else if 'A' <= d <= 'Z' {
      LetterAt(d as int - 65);
    }
  }

  lemma SameLetterLower(c: char, d: char)
    ensures SameLetter(c, d) <==> LowerChar(c) == LowerChar(d)
  {
    hide SameLetter, UPPER, LOWER;
    SameLetterIs(c, d);
  }

  /** Only capital letters change. */
  lemma CapitalLetters(c: char)
    ensures c in UPPER <==> 'A' <= c <= 'Z'
  {
    if 'A' <= c <= 'Z' { LetterAt(c as int - 65); }
  }

  // ---------------------------------------------------------------- trimming

  ghost predicate Spaces(s: string) {
    forall i :: 0 <= i < |s| ==> IsSpace(s[i])
  }

  lemma BlankIsSpaces(s: string)
    ensures Blank(s) <==> Spaces(s)
  {
    hide IsSpace, SPACES;
    forall i | 0 <= i < |s|
      ensures IsSpace(s[i]) <==> s[i] in SPACES
    {
      SpacesListed(s[i]);
    }
  }

  lemma DropFront(s: string, i: nat, j: nat)
    requires i <= j < |s|
    ensures s[i + 1..j + 1] == s[1..][i..j] && s[j + 1..] == s[1..][j..] && s[..i + 1] == [s[0]] + s[1..][..i]
  {}

  lemma MoreFront(s: string, i: nat, j: nat)
    requires s != [] && IsSpace(s[0]) && i <= j < |s| && Spaces(s[1..][..i]) && Spaces(s[1..][j..])
    ensures s[i + 1..j + 1] == s[1..][i..j] && Spaces(s[..i + 1]) && Spaces(s[j + 1..])
  {
    hide IsSpace;
    DropFront(s, i, j);
  }

  lemma MoreBehind(s: string, i: nat, j: nat)
    requires s != [] && IsSpace(s[|s| - 1]) && i <= j < |s|
    requires Spaces(s[..|s| - 1][..i]) && Spaces(s[..|s| - 1][j..])
    ensures s[i..j] == s[..|s| - 1][i..j] && Spaces(s[..i]) && Spaces(s[j..])
  {
    hide IsSpace;
    assert s[..i] == s[..|s| - 1][..i];
    assert s[i..j] == s[..|s| - 1][i..j];
    forall k | j <= k < |s|
      ensures IsSpace(s[k])
    {
      assert k < |s| - 1 ==> s[..|s| - 1][j..][k - j] == s[k];
    }
  }

  /** What is trimmed off are spaces. */
  lemma {:induction false} TrimFrames(s: string) returns (i: nat, j: nat)
    ensures i <= j <= |s| && Trim(s) == s[i..j] && Spaces(s[..i]) && Spaces(s[j..])
    decreases |s|
  {
    hide IsSpace, Spaces;
    if s == [] {
      NoSpaces();
      return 0, 0;
    } else if IsSpace(s[0]) {
      i, j := TrimFrames(s[1..]);
      MoreFront(s, i, j);
      return i + 1, j + 1;
    } else if IsSpace(s[|s| - 1]) {
      i, j := TrimFrames(s[..|s| - 1]);
      MoreBehind(s, i, j);
    } else {
      NoSpaces();
      assert s[..0] == [] == s[|s|..] && s[0..|s|] == s;
      return 0, |s|;
    }
  }

  lemma NoSpaces()
    ensures Spaces([])
  {}

  /** Spaces in front do not matter, ... */
  lemma {:induction false} TrimFront(a: string, s: string)
    requires Spaces(a)
    ensures Trim(a + s) == Trim(s)
    decreases |a|
  {
    hide IsSpace;
    if a == [] {
      assert a + s == s;
    } else {
      assert (a + s)[1..] == a[1..] + s;
      TrimFront(a[1..], s);
    }
  }

  /** ... nor do spaces behind. */
  lemma {:induction false} TrimBehind(s: string, b: string)
    requires Spaces(b)
    ensures Trim(s + b) == Trim(s)
    decreases |s| + |b|
  {
    hide IsSpace;
    if s == [] {
      TrimFront(b, []);
      assert s + b == b + [];
    } else if IsSpace(s[0]) {
      assert (s + b)[1..] == s[1..] + b;
      TrimBehind(s[1..], b);
    } else if b == [] {
      assert s + b == s;
    } else {
      assert (s + b)[..|s + b| - 1] == s + b[..|b| - 1];
      TrimBehind(s, b[..|b| - 1]);
    }
  }

  lemma ThreeParts(s: string, i: nat, j: nat)
    requires i <= j <= |s|
    ensures s == s[..i] + (s[i..j] + s[j..])
  {}

  lemma FramedTrims(s: string, m: string)
    requires Framed(s, m)
    ensures Trim(s) == Trim(m)
  {
    hide Blank, Spaces, Trim;
    var i, j :| 0 <= i <= j <= |s| && m == s[i..j] && Blank(s[..i]) && Blank(s[j..]);
    BlankIsSpaces(s[..i]);
    BlankIsSpaces(s[j..]);
    ThreeParts(s, i, j);
    TrimFront(s[..i], s[i..j] + s[j..]);
    TrimBehind(s[i..j], s[j..]);
  }

  lemma TrimFramed(s: string)
    ensures Framed(s, Trim(s))
  {
    hide Blank, Spaces, Trim;
    var i, j := TrimFrames(s);
    BlankIsSpaces(s[..i]);
    BlankIsSpaces(s[j..]);
  }

  // ---------------------------------------------------------------- case

  predicate SameLower(s: string, t: string) {
    |s| == |t| && forall i :: 0 <= i < |s| ==> LowerChar(s[i]) == LowerChar(t[i])
  }

  lemma SameButCaseLower(s: string, t: string)
    ensures SameButCase(s, t) <==> SameLower(s, t)
  {
    hide SameLetter, LowerChar;
    if |s| == |t| {
      forall i | 0 <= i < |s|
        ensures SameLetter(s[i], t[i]) <==> LowerChar(s[i]) == LowerChar(t[i])
      {
        SameLetterLower(s[i], t[i]);
      }
    }
  }

  lemma SameLowerIff(s: string, t: string)
    ensures SameLower(s, t) <==> Lower(s) == Lower(t)
  {
    hide LowerChar, Lower;
    if Lower(s) == Lower(t) {
      forall i | 0 <= i < |s|
        ensures LowerChar(s[i]) == LowerChar(t[i])
      {
        assert Lower(s)[i] == Lower(t)[i];
      }
    }
  }

  lemma LowerSame(s: string)
    ensures SameLower(s, Lower(s))
  {}

  lemma {:induction false} TrimSameLower(s: string, t: string)
    requires SameLower(s, t)
    ensures SameLower(Trim(s), Trim(t))
    decreases |s|
  {
    hide IsSpace, LowerChar;
    if s != [] {
      SameSpace(s[0], t[0]);
      SameSpace(s[|s| - 1], t[|s| - 1]);
      if IsSpace(s[0]) {
        TrimSameLower(s[1..], t[1..]);
      } else if IsSpace(s[|s| - 1]) {
        TrimSameLower(s[..|s| - 1], t[..|s| - 1]);
      }
    }
  }

  lemma SameSpace(c: char, d: char)
    requires LowerChar(c) == LowerChar(d)
    ensures IsSpace(c) == IsSpace(d)
  {
    hide IsSpace;
  }

  // ---------------------------------------------------------------- keys

  lemma LowerIsNormal(s: string)
    requires s != [] && !IsSpace(s[0]) && !IsSpace(s[|s| - 1])
    ensures IsNormal(Lower(s))
  {
    hide IsSpace, SPACES, UPPER;
    var n := Lower(s);
    SpacesListed(n[0]);
    SpacesListed(n[|n| - 1]);
    forall i | 0 <= i < |n|
      ensures n[i] !in UPPER
    {
      CapitalLetters(n[i]);
    }
  }

  /** The key of a text is the text between the outer spaces, in small letters; null and texts of spaces have none. */
  lemma NormalizeIs(value: Value)
    ensures NormalizeOldId(value).None? <==> value.Null? || Blank(value.text)
    ensures NormalizeOldId(value).Some? ==>
              var n := NormalizeOldId(value).value;
              IsNormal(n) && exists m :: Framed(value.text, m) && SameButCase(m, n)
  {
    hide IsSpace, SPACES, Trim, Lower, LowerChar, IsNormal, SameButCase, Framed, SameLower, Blank, Spaces;
    if value.Text? {
      var m := Trim(value.text);
      TrimFramed(value.text);
      LowerSame(m);
      SameButCaseLower(m, Lower(m));
      TrimNone(value.text);
      BlankIsSpaces(value.text);
      if m != [] { LowerIsNormal(m); }
    }
  }

  lemma SpacesTrimmed(s: string)
    requires Spaces(s)
    ensures Trim(s) == []
  {
    hide IsSpace, Spaces;
    TrimFront(s, []);
    assert s + [] == s;
  }

  lemma TrimNone(s: string)
    ensures Trim(s) == [] <==> Spaces(s)
  {
    hide IsSpace, Trim;
    if Spaces(s) { SpacesTrimmed(s); }
    if Trim(s) == [] {
      var i, j := TrimFrames(s);
      assert s == s[..i] + s[j..];
    }
  }

  /** Two texts get the same key exactly if they agree up to outer spaces and case. */
  lemma SameKeyIff(s: string, t: string)
    ensures NormalizeOldId(Text(s)) == NormalizeOldId(Text(t)) <==>
            exists m, o :: Framed(s, m) && Framed(t, o) && SameButCase(m, o)
  {
    hide Trim, Lower, LowerChar, SameButCase, Framed, SameLower, IsSpace;
    var same := NormalizeOldId(Text(s)) == NormalizeOldId(Text(t));
    assert same <==> Lower(Trim(s)) == Lower(Trim(t));
    SameLowerIff(Trim(s), Trim(t));
    if same {
      TrimFramed(s);
      TrimFramed(t);
      SameButCaseLower(Trim(s), Trim(t));
    } else if m, o :| Framed(s, m) && Framed(t, o) && SameButCase(m, o) {
      FramedTrims(s, m);
      FramedTrims(t, o);
      SameButCaseLower(m, o);
      TrimSameLower(m, o);
    }
  }
}
