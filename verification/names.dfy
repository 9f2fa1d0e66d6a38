/**
 * The name cleaner of `check_stock`: `seed_name.replace(" Seed", "").strip()`.
 */
module Names {
  import opened Text

  /** The token deleted from every item heading. */
  const SeedToken: string := " Seed"

  /** The token occurs in `s` at position `i`. */
  predicate TokenAt(s: string, i: int) {
    0 <= i && i + |SeedToken| <= |s| && s[i..i + |SeedToken|] == SeedToken
  }

  /** `s` contains no occurrence of the token. */
  predicate TokenFree(s: string) {
    forall i :: 0 <= i <= |s| ==> !TokenAt(s, i)
  }

  /** `s.replace(" Seed", "")`: scanning left to right, every non-overlapping
      occurrence of the token is deleted and every other character is kept. */
  function RemoveSeed(s: string): (r: string)
    ensures |r| <= |s|
    ensures (|s| - |r|) % |SeedToken| == 0
    decreases |s|
  {
    if TokenAt(s, 0) then RemoveSeed(s[|SeedToken|..])
    else if s == [] then []
    else [s[0]] + RemoveSeed(s[1..])
  }

  /** The name `check_stock` compares with the target list. */
  function CleanName(heading: string): (r: string)
    ensures Stripped(r)
    ensures |r| <= |heading|
  {
    Trim(RemoveSeed(heading))
  }

  /** `replace` changes a string exactly when the token occurs in it. */
  lemma {:induction false} RemoveSeedIdentity(s: string)
    ensures RemoveSeed(s) == s <==> TokenFree(s)
  {
    if TokenFree(s) {
      RemoveSeedOfTokenFree(s);
    } else {
      RemoveSeedShrinks(s);
    }
  }

  lemma {:induction false} RemoveSeedOfTokenFree(s: string)
    requires TokenFree(s)
    ensures RemoveSeed(s) == s
    decreases |s|
  {
    if s != [] {
      assert !TokenAt(s, 0);
      assert TokenFree(s[1..]) by {
        forall i ensures !TokenAt(s[1..], i) {
          if TokenAt(s[1..], i) {
            assert s[1..][i..i + |SeedToken|] == s[i + 1..i + 1 + |SeedToken|];
            assert TokenAt(s, i + 1);
          }
        }
      }
      RemoveSeedOfTokenFree(s[1..]);
    }
  }

  lemma {:induction false} RemoveSeedShrinks(s: string)
    requires !TokenFree(s)
    ensures |RemoveSeed(s)| < |s|
    decreases |s|
  {
    if !TokenAt(s, 0) {
      var i :| 0 <= i <= |s| && TokenAt(s, i);
      assert i >= 1;
      assert s[1..][i - 1..i - 1 + |SeedToken|] == s[i..i + |SeedToken|];
      assert TokenAt(s[1..], i - 1);
      RemoveSeedShrinks(s[1..]);
    }
  }

  /** No occurrence of the token can straddle the end of a string followed by the
      token: the token has no proper prefix that is also a suffix of it. */
  lemma NoStraddle(a: string, c: string)
    requires 0 < |a| < |SeedToken|
    requires |c| >= |SeedToken| && c[..|SeedToken|] == SeedToken
    ensures !TokenAt(a + c, 0)
  {
    // Position |a| holds the space that opens the second token, while in the
    // first token that position holds a letter.
    assert (a + c)[|a|] == ' ';
  }

  /** One step of the scan where the token does not start the string. */
  lemma RemoveSeedKeep(s: string)
    requires s != [] && !TokenAt(s, 0)
    ensures RemoveSeed(s) == [s[0]] + RemoveSeed(s[1..])
  {
  }

  /** One step of the scan where the token starts the string. */
  lemma RemoveSeedSkip(s: string)
    requires TokenAt(s, 0)
    ensures RemoveSeed(s) == RemoveSeed(s[|SeedToken|..])
  {
  }

  /** Deleting tokens distributes over a split placed just before an occurrence. */
  lemma {:induction false} RemoveSeedSplit(a: string, c: string)
    requires |c| >= |SeedToken| && c[..|SeedToken|] == SeedToken
    ensures RemoveSeed(a + c) == RemoveSeed(a) + RemoveSeed(c)
    decreases |a|
  {
    var ac := a + c;
    if a == [] {
      assert ac == c;
    } else if TokenAt(a, 0) {
      assert TokenAt(ac, 0) by {
        assert ac[..|SeedToken|] == a[..|SeedToken|];
      }
      var a' := a[|SeedToken|..];
      assert ac[|SeedToken|..] == a' + c;
      RemoveSeedSkip(a);
      RemoveSeedSkip(ac);
      RemoveSeedSplit(a', c);
    } else {
      assert !TokenAt(ac, 0) by {
        if |a| < |SeedToken| {
          NoStraddle(a, c);
        } else {
          assert ac[..|SeedToken|] == a[..|SeedToken|];
        }
      }
      var a' := a[1..];
      assert ac[1..] == a' + c;
      RemoveSeedKeep(a);
      RemoveSeedKeep(ac);
      RemoveSeedSplit(a', c);
      AppendAssoc([a[0]], RemoveSeed(a'), RemoveSeed(c));
    }
  }

  /** A string without spaces cannot contain the token, which starts with one. */
  lemma TokenFreeWithoutSpace(s: string)
    requires forall j :: 0 <= j < |s| ==> s[j] != ' '
    ensures TokenFree(s)
  {
    forall i | 0 <= i <= |s| ensures !TokenAt(s, i) {
      if i + |SeedToken| <= |s| {
        assert s[i..i + |SeedToken|][0] == s[i];
      }
    }
  }

  /** The token on its own is deleted entirely. */
  lemma RemoveSeedOfToken()
    ensures RemoveSeed(SeedToken) == []
  {
    var c := SeedToken;
    assert TokenAt(c, 0) by { assert c[..|SeedToken|] == c; }
    RemoveSeedSkip(c);
    assert c[|SeedToken|..] == [];
  }

  /** A page heading `"<name> Seed"` is cleaned back to `name` when the name has no
      surrounding whitespace and does not itself contain the token. */
  lemma CleanHeading(name: string)
    requires Stripped(name) && TokenFree(name)
    ensures CleanName(name + SeedToken) == name
  {
    var c := SeedToken;
    assert c[..|SeedToken|] == SeedToken;
    RemoveSeedSplit(name, c);
    RemoveSeedOfToken();
    RemoveSeedOfTokenFree(name);
    assert RemoveSeed(name + c) == name + [];
    assert name + [] == name;
    TrimStripped(name);
  }

  /** A lower-case heading keeps its case: `"beanstalk Seed"` cleans to
      `"beanstalk"`, not to the target name `"Beanstalk"`. */
  lemma CleanLowerBeanstalk()
    ensures CleanName("beanstalk Seed") == "beanstalk"
  {
    var n := "beanstalk";
    assert n + SeedToken == "beanstalk Seed";
    TokenFreeWithoutSpace(n);
    CleanHeading(n);
  }

  /** `replace` makes a single pass: deleting one token can bring two halves of
      another together, which then survives. */
  lemma RemoveSeedSinglePass()
    ensures RemoveSeed(" S Seedeed") == " Seed"
  {
    var s := " S Seedeed";
    var t := s[1..];
    var u := t[1..];
    var v := u[|SeedToken|..];
    assert !TokenAt(s, 0) by { assert s[2] != SeedToken[2]; }
    assert !TokenAt(t, 0) by { assert t[0] != SeedToken[0]; }
    assert TokenAt(u, 0) by { assert u[..|SeedToken|] == SeedToken; }
    assert v == "eed";
    RemoveSeedKeep(s);
    RemoveSeedKeep(t);
    RemoveSeedSkip(u);
    RemoveSeedOfTokenFree(v);
  }
}
