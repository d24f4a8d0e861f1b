/** Card-name handling: the spelling rewrite applied before lookups and the fixed exclusion rule. */
module CardNames {

  /** The separator between the faces of a split, adventure or fuse card in the cube list. */
  const FaceSeparator: string := " // "

  /** The names `is_allowed_card` rejects. */
  const ExcludedCardNames: set<string> := {"Cogwork Librarian", ""}

  /** The face separator starts at position `i` of `s`. */
  predicate SeparatorAt(s: string, i: nat) {
    i + 4 <= |s| && s[i..i + 4] == FaceSeparator
  }

  predicate HasSeparator(s: string) {
    exists i: nat :: i < |s| && SeparatorAt(s, i)
  }

  /** `card_name.replace(" // ", "/")`: scans left to right and replaces every non-overlapping
      occurrence of the separator by a single slash. */
  function NormalizeCardName(name: string): (r: string)
    ensures |r| <= |name|
    ensures name != [] ==> r != []
    decreases |name|
  {
    if name == [] then []
    else if SeparatorAt(name, 0) then "/" + NormalizeCardName(name[4..])
    else [name[0]] + NormalizeCardName(name[1..])
  }

  /** `is_allowed_card` */
  function IsAllowedCard(name: string): (allowed: bool)
    ensures !allowed <==> name in ExcludedCardNames
  {
    name != "Cogwork Librarian" && name != ""
  }

  lemma SeparatorShift(s: string, i: nat)
    requires 0 < i && i < |s|
    ensures SeparatorAt(s, i) <==> SeparatorAt(s[1..], i - 1)
  {
    if i + 4 <= |s| {
      assert s[1..][i - 1..i + 3] == s[i..i + 4];
    }
  }

  /** A name without the separator is left exactly as it is, and only such a name is. */
  lemma {:induction false} NormalizeUnchangedIff(name: string)
    ensures NormalizeCardName(name) == name <==> !HasSeparator(name)
  {
    if HasSeparator(name) {
      NormalizeShortens(name);
    } else {
      NormalizeWithoutSeparator(name);
    }
  }

  lemma {:induction false} NormalizeWithoutSeparator(name: string)
    requires !HasSeparator(name)
    ensures NormalizeCardName(name) == name
    decreases |name|
  {
    if name != [] {
      assert !SeparatorAt(name, 0);
      forall i: nat | i < |name[1..]|
        ensures !SeparatorAt(name[1..], i)
      {
        SeparatorShift(name, i + 1);
      }
      NormalizeWithoutSeparator(name[1..]);
    }
  }

  /** Every occurrence of the separator is shortened to one character. */
  lemma {:induction false} NormalizeShortens(name: string)
    requires HasSeparator(name)
    ensures |NormalizeCardName(name)| < |name|
    ensures '/' in NormalizeCardName(name)
    decreases |name|
  {
    var i: nat :| i < |name| && SeparatorAt(name, i);
    if !SeparatorAt(name, 0) {
      SeparatorShift(name, i);
      assert SeparatorAt(name[1..], i - 1);
      NormalizeShortens(name[1..]);
    }
  }

  /** The separator holds two slashes in a row, so a name without them has no separator. */
  lemma NoDoubleSlash(s: string)
    requires forall i :: 0 <= i < |s| - 1 ==> !(s[i] == '/' && s[i + 1] == '/')
    ensures !HasSeparator(s)
  {
    forall i: nat | i + 4 <= |s|
      ensures !SeparatorAt(s, i)
    {
      assert s[i..i + 4][1] == s[i + 1] && s[i..i + 4][2] == s[i + 2];
    }
  }

  /** Normalization never turns an allowed name into an excluded one, nor the reverse, so
      checking the exclusion rule before or after the rewrite gives the same answer. */
  lemma NormalizePreservesAllowed(name: string)
    ensures IsAllowedCard(NormalizeCardName(name)) <==> IsAllowedCard(name)
  {
    var librarian := "Cogwork Librarian";
    assert '/' !in librarian;
    if name == librarian {
      NoDoubleSlash(name);
      NormalizeWithoutSeparator(name);
    } else if HasSeparator(name) {
      NormalizeShortens(name);
      assert NormalizeCardName(name) != librarian;
    } else {
      NormalizeWithoutSeparator(name);
    }
  }

  /** A prefix in which no separator starts is copied unchanged. */
  lemma {:induction false} NormalizeKeepsPrefix(p: string, s: string)
    requires forall i: nat :: i < |p| ==> !SeparatorAt(p + s, i)
    ensures NormalizeCardName(p + s) == p + NormalizeCardName(s)
    decreases |p|
  {
    if p != [] {
      assert !SeparatorAt(p + s, 0);
      assert (p + s)[1..] == p[1..] + s;
      forall i: nat | i < |p[1..]|
        ensures !SeparatorAt(p[1..] + s, i)
      {
        SeparatorShift(p + s, i + 1);
      }
      NormalizeKeepsPrefix(p[1..], s);
      calc {
        NormalizeCardName(p + s);
        [(p + s)[0]] + NormalizeCardName((p + s)[1..]);
        [p[0]] + NormalizeCardName(p[1..] + s);
        [p[0]] + (p[1..] + NormalizeCardName(s));
        { assert [p[0]] + p[1..] == p; }
        p + NormalizeCardName(s);
      }
    } else {
      assert p + s == s;
    }
  }

  /** The two faces of a split card, written with the separator, become one name joined by a slash. */
  lemma JoinFaces(a: string, b: string)
    requires !HasSeparator(a + " ") && !HasSeparator(b)
    ensures NormalizeCardName(a + FaceSeparator + b) == a + "/" + b
  {
    var s := a + FaceSeparator + b;
    forall i: nat | i < |a|
      ensures !SeparatorAt(s, i)
    {
      if i + 4 <= |a| + 1 {
        assert s[..|a| + 1] == a + " ";
        assert s[i..i + 4] == (a + " ")[i..i + 4];
        assert !SeparatorAt(a + " ", i);
      } else if i + 4 <= |s| {
        assert s[i..i + 4][1] == s[i + 1] && s[i..i + 4][2] == s[i + 2];
        assert s[|a|] == ' ';
      }
    }
    assert s == a + (FaceSeparator + b);
    NormalizeKeepsPrefix(a, FaceSeparator + b);
    assert SeparatorAt(FaceSeparator + b, 0);
    assert (FaceSeparator + b)[4..] == b;
    NormalizeWithoutSeparator(b);
  }

  /** A split card in the cube list's spelling. */
  lemma NormalizeSplitCardExample(name: string)
    requires name == "Fire // Ice"
    ensures NormalizeCardName(name) == "Fire/Ice"
  {
    NoDoubleSlash("Fire" + " ");
    NoDoubleSlash("Ice");
    JoinFaces("Fire", "Ice");
    assert "Fire" + FaceSeparator + "Ice" == name;
  }

  /** A single slash with spaces around it is not the separator. */
  lemma NormalizeSingleSlashExample()
    ensures NormalizeCardName("Fire / Ice") == "Fire / Ice"
  {
    NoDoubleSlash("Fire / Ice");
    NormalizeWithoutSeparator("Fire / Ice");
  }
}
