/** The name of the cache directory a repository is cloned into:
    `"%s-%s" % (re.sub(".git$", '', os.path.basename(locator)), ref)`. */
module CacheName {

  /** `os.path.basename`: everything after the last `/`, or the whole string. */
  function LastSegment(s: string): string
    decreases |s|
  {
    if |s| == 0 || s[|s| - 1] == '/' then ""
    else LastSegment(s[..|s| - 1]) + [s[|s| - 1]]
  }

  /** The basename is a suffix without `/` that starts the string or
      follows a `/`. */
  lemma {:induction false} LastSegmentSpec(s: string)
    ensures '/' !in LastSegment(s)
    ensures |LastSegment(s)| <= |s| && LastSegment(s) == s[|s| - |LastSegment(s)|..]
    ensures |LastSegment(s)| == |s| || s[|s| - |LastSegment(s)| - 1] == '/'
    decreases |s|
  {
    if |s| > 0 && s[|s| - 1] != '/' {
      LastSegmentSpec(s[..|s| - 1]);
    }
  }

  /** Those properties pin the basename down: no other suffix has them. */
  lemma LastSegmentUnique(s: string, r: string)
    requires '/' !in r
    requires |r| <= |s| && r == s[|s| - |r|..]
    requires |r| == |s| || s[|s| - |r| - 1] == '/'
    ensures r == LastSegment(s)
  {
    LastSegmentSpec(s);
  }

  /** Where the pattern `.git$` of Python's `re` matches: any character but
      a newline, then `git`, then the end of the string or a newline that
      ends the string. */
  predicate MatchAt(s: string, i: nat) {
    && i + 4 <= |s|
    && s[i] != '\n'
    && s[i + 1] == 'g' && s[i + 2] == 'i' && s[i + 3] == 't'
    && (i + 4 == |s| || (i + 5 == |s| && s[i + 4] == '\n'))
  }

  /** `re.sub(pattern, '', s[i..])` as Python's `re` computes it: scan left to
      right, drop each match and continue after it, keep every other
      character. */
  function ReSub(s: string, i: nat): string
    requires i <= |s|
    decreases |s| - i
  {
    if i == |s| then ""
    else if MatchAt(s, i) then ReSub(s, i + 4)
    else [s[i]] + ReSub(s, i + 1)
  }

  /** The name with its trailing match of `.git$` removed. The dot is not
      escaped in the source, so any character before `git` goes with it. */
  function StripGitSuffix(s: string): string {
    if |s| >= 4 && MatchAt(s, |s| - 4) then s[..|s| - 4]
    else if |s| >= 5 && MatchAt(s, |s| - 5) then s[..|s| - 5] + "\n"
    else s
  }

  /** A match can only sit right at the end or right before a final newline. */
  lemma MatchPositions(s: string, i: nat)
    requires MatchAt(s, i)
    ensures i == |s| - 4 || (i == |s| - 5 && s[|s| - 1] == '\n')
  {
  }

  /** With no match in `s[i..j]`, the scan copies that stretch. */
  lemma {:induction false} ReSubCopies(s: string, i: nat, j: nat)
    requires i <= j <= |s|
    requires forall k :: i <= k < j ==> !MatchAt(s, k)
    ensures ReSub(s, i) == s[i..j] + ReSub(s, j)
    decreases j - i
  {
    if i < j {
      assert ReSub(s, i) == [s[i]] + ReSub(s, i + 1);
      ReSubCopies(s, i + 1, j);
      assert s[i..j] == [s[i]] + s[i + 1..j];
    }
  }

  /** The closed form agrees with the left-to-right substitution of `re.sub`. */
  lemma StripGitSuffixIsReSub(s: string)
    ensures StripGitSuffix(s) == ReSub(s, 0)
  {
    if |s| >= 5 && MatchAt(s, |s| - 5) {
      ReSubCopies(s, 0, |s| - 5);
      assert ReSub(s, |s| - 1) == "\n";
      assert s[0..|s| - 5] == s[..|s| - 5];
    } else if |s| >= 4 && MatchAt(s, |s| - 4) {
      forall k | 0 <= k < |s| - 4 ensures !MatchAt(s, k) {
        if MatchAt(s, k) {
          MatchPositions(s, k);
        }
      }
      ReSubCopies(s, 0, |s| - 4);
      assert s[0..|s| - 4] == s[..|s| - 4];
    } else {
      forall k | 0 <= k < |s| ensures !MatchAt(s, k) {
        if MatchAt(s, k) {
          MatchPositions(s, k);
        }
      }
      ReSubCopies(s, 0, |s|);
      assert s[0..|s|] == s;
    }
  }

  /** The cache directory name for cloning `locator` at `ref`. */
  function CacheDirName(locator: string, ref: string): string {
    StripGitSuffix(LastSegment(locator)) + "-" + ref
  }

  /** Only the basename of the locator enters the name, so two locators
      with equal basenames (the same project from two hosts, say) share a
      cache directory for the same ref. */
  lemma SameBasenameCollides(a: string, b: string, ref: string)
    requires LastSegment(a) == LastSegment(b)
    ensures CacheDirName(a, ref) == CacheDirName(b, ref)
  {
  }

  /** The intended case: a basename ending in `.git` loses exactly that suffix. */
  lemma DotGitStripped(name: string)
    requires '/' !in name && '\n' !in name
    ensures CacheDirName(name + ".git", "master") == name + "-master"
  {
    var s := name + ".git";
    assert LastSegment(s) == s by {
      LastSegmentUnique(s, s);
    }
    assert s[|s| - 3..] == "git";
    assert s[..|s| - 4] == name;
  }

  /** The name joins basename and ref with `-`, which both may contain, so
      `x/a-b` at `c` and `x/a` at `b-c` share a cache directory. */
  lemma HyphenCollides()
    ensures CacheDirName("x/a-b", "c") == CacheDirName("x/a", "b-c") == "a-b-c"
  {
    LastSegmentUnique("x/a-b", "a-b");
    LastSegmentUnique("x/a", "a");
  }

  /** The unescaped dot: `widgit` loses `dgit`, and so collides with
      `wi.git`. */
  lemma UnescapedDotCollides()
    ensures CacheDirName("https://example.org/widgit", "master") == "wi-master"
    ensures CacheDirName("https://example.org/widgit", "master")
            == CacheDirName("https://example.org/wi.git", "master")
  {
    StrippedToWi("widgit");
    assert "https://example.org/" + "widgit" == "https://example.org/widgit";
    StrippedToWi("wi.git");
    assert "https://example.org/" + "wi.git" == "https://example.org/wi.git";
  }

  /** A basename of `wi`, one more character and `git` loses all but `wi`. */
  lemma StrippedToWi(name: string)
    requires |name| == 6 && name[..2] == "wi" && name[2] != '\n' && name[2] != '/' && name[3..] == "git"
    ensures CacheDirName("https://example.org/" + name, "master") == "wi-master"
  {
    var host := "https://example.org/";
    var s := host + name;
    assert '/' !in name by {
      assert name == [name[0], name[1], name[2], name[3], name[4], name[5]];
    }
    assert s[|s| - |name|..] == name;
    assert s[|s| - |name| - 1] == host[|host| - 1] == '/';
    LastSegmentUnique(s, name);
    assert MatchAt(name, 2);
    assert StripGitSuffix(name) == name[..2];
  }
}
