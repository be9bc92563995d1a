/** The two e-mail tests the site uses. Both are regular expressions, so
    each is written here as the split the regex performs: a '@' and a '.'
    cutting the address into three non-empty runs of a character class.

    - strict, `/^[^\s@]+@[^\s@]+\.[^\s@]+$/` (membership, contact and
      donations pages): the runs may hold neither whitespace nor '@';
    - loose, `/^\S+@\S+\.\S+$/` (the site-wide submit check): the runs may
      hold anything but whitespace, '@' included. */
module Email {
  import opened Text

  /** A character of `[^\s@]`. */
  predicate AddressChar(c: char) {
    !IsSpace(c) && c != '@'
  }

  /** `[^\s@]+` matching the whole of t. */
  predicate AddressRun(t: string) {
    |t| > 0 && forall k :: 0 <= k < |t| ==> AddressChar(t[k])
  }

  /** `\S+` matching the whole of t. */
  predicate NonSpaceRun(t: string) {
    |t| > 0 && NoSpace(t)
  }

  /** s[i] is the '@' and s[j] the '.' of a strict match. */
  predicate StrictSplit(s: string, i: int, j: int) {
    0 <= i < j < |s| && s[i] == '@' && s[j] == '.' &&
      AddressRun(s[..i]) && AddressRun(s[i + 1..j]) && AddressRun(s[j + 1..])
  }

  /** `/^[^\s@]+@[^\s@]+\.[^\s@]+$/.test(s)`. */
  predicate MatchesStrict(s: string) {
    exists i, j :: 0 <= i < |s| && 0 <= j < |s| && StrictSplit(s, i, j)
  }

  /** s[i] is the '@' and s[j] the '.' of a loose match. */
  predicate LooseSplit(s: string, i: int, j: int) {
    0 <= i < j < |s| && s[i] == '@' && s[j] == '.' &&
      NonSpaceRun(s[..i]) && NonSpaceRun(s[i + 1..j]) && NonSpaceRun(s[j + 1..])
  }

  /** `/^\S+@\S+\.\S+$/.test(s)`. */
  predicate MatchesLoose(s: string) {
    exists i, j :: 0 <= i < |s| && 0 <= j < |s| && LooseSplit(s, i, j)
  }

  /** d holds a '.' that is neither its first nor its last character. */
  predicate HasInnerDot(d: string) {
    exists p :: 0 < p < |d| - 1 && d[p] == '.'
  }

  /** What the strict test accepts, said without a regex: no whitespace,
      exactly one '@', something before it, and after it a domain with a
      '.' that is neither the domain's first nor its last character. */
  predicate WellFormedAddress(s: string) {
    var i := IndexOf(s, '@');
    && NoSpace(s)
    && 0 < i < |s|
    && (forall k :: i < k < |s| ==> s[k] != '@')
    && HasInnerDot(s[i + 1..])
  }

  lemma MatchesStrictIsWellFormed(s: string, i: int, j: int)
    requires StrictSplit(s, i, j)
    ensures WellFormedAddress(s)
  {
    forall k | 0 <= k < |s| ensures AddressChar(s[k]) || k == i {
      if k < i {
        assert s[k] == s[..i][k];
      } else if i < k < j {
        assert s[k] == s[i + 1..j][k - i - 1];
      } else if j < k {
        assert s[k] == s[j + 1..][k - j - 1];
      }
    }
    assert !IsSpace('@');
    var at := IndexOf(s, '@');
    IndexOfFirst(s, '@');
    assert at == i;
    var d := s[i + 1..];
    assert d[j - i - 1] == '.';
  }

  lemma WellFormedMatchesStrict(s: string)
    requires WellFormedAddress(s)
    ensures MatchesStrict(s)
  {
    var i := IndexOf(s, '@');
    IndexOfFirst(s, '@');
    var d := s[i + 1..];
    var p :| 0 < p < |d| - 1 && d[p] == '.';
    var j := i + 1 + p;
    assert s[j] == d[p];
    assert StrictSplit(s, i, j) by {
      forall k | 0 <= k < |s| && k != i ensures AddressChar(s[k]) {
      }
      assert AddressRun(s[..i]) by {
        forall k | 0 <= k < i ensures AddressChar(s[..i][k]) {
          assert s[..i][k] == s[k];
        }
      }
      var b, c := s[i + 1..j], s[j + 1..];
      assert AddressRun(b) by {
        forall k | 0 <= k < |b| ensures AddressChar(b[k]) {
          assert b[k] == s[i + 1 + k];
        }
      }
      assert AddressRun(c) by {
        forall k | 0 <= k < |c| ensures AddressChar(c[k]) {
          assert c[k] == s[j + 1 + k];
        }
      }
    }
  }

  /** The strict regex accepts exactly the well-formed addresses. */
  lemma MatchesStrictIff(s: string)
    ensures MatchesStrict(s) <==> WellFormedAddress(s)
  {
    if MatchesStrict(s) {
      var i, j :| StrictSplit(s, i, j);
      MatchesStrictIsWellFormed(s, i, j);
    }
    if WellFormedAddress(s) {
      WellFormedMatchesStrict(s);
    }
  }

  /** Every address the strict test accepts, the loose test accepts too. */
  lemma StrictImpliesLoose(s: string)
    requires MatchesStrict(s)
    ensures MatchesLoose(s)
  {
    var i, j :| 0 <= i < |s| && 0 <= j < |s| && StrictSplit(s, i, j);
    assert NonSpaceRun(s[..i]) && NonSpaceRun(s[i + 1..j]) && NonSpaceRun(s[j + 1..]);
    assert LooseSplit(s, i, j);
  }

  /** The converse fails: the loose test lets a second '@' through. */
  lemma LooseAcceptsSecondAt()
    ensures MatchesLoose("a@b@c.d") && !MatchesStrict("a@b@c.d")
  {
    var s := "a@b@c.d";
    assert s[1] == '@' && s[5] == '.';
    assert LooseSplit(s, 1, 5);
    MatchesStrictIff(s);
    assert IndexOf(s, '@') == 1;
    assert s[3] == '@';
  }
}
