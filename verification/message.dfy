/**
 * The message derivation of the HTTP collector: `strings.Trim(path, "/")`,
 * which strips every leading and every trailing '/'. Which end is stripped
 * first makes no difference to the result.
 */
module Message {
  import opened Seqs

  const Slash: char := '/'

  /** Every character of `s` is a slash. */
  predicate AllSlash(s: string) {
    forall k :: 0 <= k < |s| ==> s[k] == Slash
  }

  /** `s` neither starts nor ends with a slash. */
  predicate Unslashed(s: string) {
    s == [] || (s[0] != Slash && s[|s| - 1] != Slash)
  }

  /** Strips every leading slash. */
  function TrimLeft(s: string): (r: string)
    ensures |r| <= |s| && r == s[|s| - |r|..]
    ensures AllSlash(s[..|s| - |r|])
    ensures r == [] || r[0] != Slash
  {
    if s != [] && s[0] == Slash then TrimLeft(s[1..]) else s
  }

  /** Strips every trailing slash. */
  function TrimRight(s: string): (r: string)
    ensures |r| <= |s| && r == s[..|r|]
    ensures AllSlash(s[|r|..])
    ensures r == [] || r[|r| - 1] != Slash
  {
    if s != [] && s[|s| - 1] == Slash then
      var r := TrimRight(s[..|s| - 1]);
      SlashSuffixGrows(s, |r|);
      r
    else s
  }

  /** A slash run at the end of `s` without its last slash is a longer run at the end of `s`. */
  lemma SlashSuffixGrows(s: string, j: nat)
    requires 0 < |s| && s[|s| - 1] == Slash && j < |s| && AllSlash(s[..|s| - 1][j..])
    ensures AllSlash(s[j..]) && s[..|s| - 1][..j] == s[..j]
  {
    forall n | 0 <= n < |s| - j ensures s[j..][n] == Slash {
      if n < |s| - 1 - j { assert s[j..][n] == s[..|s| - 1][j..][n]; }
    }
  }

  /**
   * `strings.Trim(s, "/")`: both ends stripped. The result is the slice that
   * the independent description `IsTrimOf` allows.
   */
  function Trim(s: string): (r: string)
    ensures Unslashed(r)
    ensures IsTrimOf(s, r)
  {
    TrimBothEnds(s);
    TrimRight(TrimLeft(s))
  }

  /**
   * Independent description of a trim: `r` is the slice `s[i..j]` that is
   * left when a run of slashes is cut from each end of `s`, and nothing
   * more can be cut.
   */
  ghost predicate IsTrimOf(s: string, r: string) {
    exists i, j :: 0 <= i <= j <= |s| && r == s[i..j] &&
      AllSlash(s[..i]) && AllSlash(s[j..]) && Unslashed(r)
  }

  /** Cutting a slash prefix that ends just before a non-slash is what TrimLeft does. */
  lemma {:induction false} TrimLeftAt(s: string, i: nat)
    requires i <= |s| && AllSlash(s[..i])
    requires i == |s| || s[i] != Slash
    ensures TrimLeft(s) == s[i..]
  {
    if i > 0 {
      assert s[0] == Slash by { assert s[..i][0] == s[0]; }
      var u := s[1..][..i - 1];
      assert AllSlash(u) by {
        forall k | 0 <= k < |u| ensures u[k] == Slash {
          assert u[k] == s[..i][k + 1];
        }
      }
      TrimLeftAt(s[1..], i - 1);
      assert s[1..][i - 1..] == s[i..];
    }
  }

  /** Cutting a slash suffix that starts just after a non-slash is what TrimRight does. */
  lemma {:induction false} TrimRightAt(s: string, j: nat)
    requires j <= |s| && AllSlash(s[j..])
    requires j == 0 || s[j - 1] != Slash
    ensures TrimRight(s) == s[..j]
  {
    if j < |s| {
      var t := s[..|s| - 1];
      assert s[|s| - 1] == Slash by { assert s[j..][|s| - 1 - j] == s[|s| - 1]; }
      assert AllSlash(t[j..]) by {
        forall k | 0 <= k < |t| - j ensures t[j..][k] == Slash {
          assert t[j..][k] == s[j..][k];
        }
      }
      TrimRightAt(t, j);
      assert t[..j] == s[..j];
    }
  }

  /** Stripping the left end and then the right end leaves the slice the description allows. */
  lemma TrimBothEnds(s: string)
    ensures IsTrimOf(s, TrimRight(TrimLeft(s)))
  {
    var l := TrimLeft(s);
    var m := TrimRight(l);
    var i := |s| - |l|;
    var j := i + |m|;
    SliceOfSuffix(s, l, m);
    assert m == s[i..j] && s[j..] == l[|m|..];
    assert AllSlash(s[..i]) && AllSlash(s[j..]);
    assert Unslashed(m) by {
      if m != [] { assert m[0] == l[0]; }
    }
    assert 0 <= i <= j <= |s|;
  }

  /** Two slash runs that meet cover the whole string. */
  lemma AllSlashJoin(s: string, i: nat)
    requires i <= |s| && AllSlash(s[..i]) && AllSlash(s[i..])
    ensures AllSlash(s)
  {
    forall k | 0 <= k < |s| ensures s[k] == Slash {
      if k < i { assert s[..i][k] == s[k]; } else { assert s[i..][k - i] == s[k]; }
    }
  }

  /** A slice of `s` cut between two slash runs, with no slash at its ends, is Trim's result. */
  lemma TrimOfSlice(s: string, i: nat, j: nat)
    requires i <= j <= |s| && AllSlash(s[..i]) && AllSlash(s[j..]) && Unslashed(s[i..j])
    ensures Trim(s) == s[i..j]
  {
    if i == j {
      AllSlashJoin(s, i);
      assert s[..|s|] == s;
      TrimLeftAt(s, |s|);
    } else {
      TrimOfNonEmptySlice(s, i, j);
    }
  }

  lemma TrimOfNonEmptySlice(s: string, i: nat, j: nat)
    requires i < j <= |s| && AllSlash(s[..i]) && AllSlash(s[j..]) && Unslashed(s[i..j])
    ensures Trim(s) == s[i..j]
  {
    var t := s[i..];
    assert s[i] != Slash by { assert s[i] == s[i..j][0]; }
    TrimLeftAt(s, i);
    assert t[j - i..] == s[j..];
    assert t[j - i - 1] != Slash by { assert t[j - i - 1] == s[i..j][j - i - 1]; }
    TrimRightAt(t, j - i);
    calc {
      Trim(s);
      TrimRight(TrimLeft(s));
      TrimRight(t);
      t[..j - i];
      s[i..j];
    }
  }

  /** Any slice that meets the independent description is Trim's result. */
  lemma DescriptionDeterminesTrim(s: string, r: string)
    requires IsTrimOf(s, r)
    ensures r == Trim(s)
  {
    var i, j :| 0 <= i <= j <= |s| && r == s[i..j] &&
      AllSlash(s[..i]) && AllSlash(s[j..]) && Unslashed(r);
    TrimOfSlice(s, i, j);
  }

  /**
   * The trim is exactly the one slice of `s` that the independent
   * description allows.
   */
  lemma TrimCharacterized(s: string, r: string)
    ensures IsTrimOf(s, r) <==> r == Trim(s)
  {
    if IsTrimOf(s, r) {
      DescriptionDeterminesTrim(s, r);
    }
  }

  /** A string with no slash at either end is left as it is. */
  lemma TrimOfUnslashed(s: string)
    requires Unslashed(s)
    ensures Trim(s) == s
  {
    assert s[..0] == [] && s[|s|..] == [];
    TrimLeftAt(s, 0);
    TrimRightAt(s, |s|);
  }

  /** The trimmed message has no slash at either end and trimming it again changes nothing. */
  lemma TrimIdempotent(s: string)
    ensures Unslashed(Trim(s))
    ensures Trim(Trim(s)) == Trim(s)
  {
    TrimOfUnslashed(Trim(s));
  }

  /** The trimmed message is a contiguous slice of the path. */
  lemma TrimIsSlice(s: string)
    ensures exists i, j :: 0 <= i <= j <= |s| && Trim(s) == s[i..j]
  {
    assert IsTrimOf(s, Trim(s));
  }
}
