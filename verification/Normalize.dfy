/** `nfs_normalize_path`: rewriting a NUL-terminated buffer in place, against the component stack. */
module Normalize {
  import opened Bytes
  import opened Paths

  const NUL: char := '\0'

  /** The C string a buffer holds. */
  function CString(b: string): (s: string)
    ensures NUL !in s && |s| <= |b| && b[..|s|] == s
    ensures NUL in b ==> |s| < |b| && b[|s|] == NUL
  {
    if b == "" || b[0] == NUL then "" else [b[0]] + CString(b[1..])
  }

  ghost predicate Holds(a: array<char>, s: string)
    reads a
  {
    |s| < a.Length && a[..|s|] == s && a[|s|] == NUL && NUL !in s
  }

  lemma Chars(a: array<char>, s: string)
    requires Holds(a, s)
    ensures forall m :: 0 <= m < |s| ==> a[m] == s[m] && a[m] != NUL
  {
    assert forall m | 0 <= m < |s| :: a[m] == a[..|s|][m] && s[m] in s;
  }

  lemma {:induction false} CStringUnique(b: string, s: string)
    requires |s| < |b| && b[..|s|] == s && b[|s|] == NUL && NUL !in s
    ensures CString(b) == s
  {
    if s != "" {
      assert b[0] == s[0];
      assert b[1..][..|s| - 1] == s[1..];
      CStringUnique(b[1..], s[1..]);
    }
  }

  // ---------------------------------------------------------------- the C string routines

  method StrLen(a: array<char>, ghost s: string) returns (n: nat)
    requires Holds(a, s)
    ensures n == |s|
  {
    Chars(a, s);
    n := 0;
    while a[n] != NUL
      invariant n <= |s|
      decreases |s| - n
    {
      n := n + 1;
    }
  }

  lemma Mismatch(s: string, pat: string, i: nat, j: nat)
    requires j < |pat| && (i + j >= |s| || s[i + j] != pat[j])
    ensures !Occurs(s, pat, i)
  {
    if i + |pat| <= |s| {
      assert s[i..i + |pat|][j] == s[i + j];
    }
  }

  /** `strncmp(path + i, pat, strlen(pat)) == 0`. */
  method Match(a: array<char>, i: nat, pat: string, ghost s: string) returns (ok: bool)
    requires Holds(a, s) && i <= |s| && NUL !in pat
    ensures ok == Occurs(s, pat, i)
  {
    Chars(a, s);
    var j := 0;
    while j < |pat|
      invariant j <= |pat| && i + j <= |s| && s[i..i + j] == pat[..j]
    {
      if a[i + j] != pat[j] {
        Mismatch(s, pat, i, j);
        return false;
      }
      assert i + j < |s| by { assert a[i + j] in pat; }
      j := j + 1;
    }
    assert pat[..j] == pat;
    return true;
  }

  /** `strcmp(path + i, pat) == 0`. */
  method Equal(a: array<char>, i: nat, pat: string, ghost s: string) returns (ok: bool)
    requires Holds(a, s) && i <= |s| && NUL !in pat
    ensures ok == (s[i..] == pat)
  {
    Chars(a, s);
    ok := Match(a, i, pat, s);
    assert s[i..] == s[i..|s|];
    if ok {
      ok := a[i + |pat|] == NUL;
    }
  }

  /** `strstr`: the first occurrence, or the length of the string if there is none. */
  method StrStr(a: array<char>, pat: string, ghost s: string) returns (found: bool, i: nat)
    requires Holds(a, s) && pat != "" && NUL !in pat
    ensures found ==> Occurs(s, pat, i) && forall j: nat :: j < i ==> !Occurs(s, pat, j)
    ensures !found ==> Absent(s, pat)
  {
    Chars(a, s);
    i := 0;
    found := false;
    while a[i] != NUL
      invariant i <= |s| && !found
      invariant forall j: nat :: j < i ==> !Occurs(s, pat, j)
      decreases |s| - i
    {
      assert i < |s|;
      found := Match(a, i, pat, s);
      if found {
        return;
      }
      i := i + 1;
    }
  }

  /** Closes a gap of `k` characters at `i`, copying up to and including the terminator. */
  method ShiftOut(a: array<char>, i: nat, k: nat, ghost s: string)
    requires Holds(a, s) && 0 < k && i + k <= |s|
    modifies a
    ensures Holds(a, s[..i] + s[i + k..])
  {
    ghost var t := s + [NUL];
    assert forall m | 0 <= m < |t| :: a[m] == t[m] by {
      assert forall m | 0 <= m < |s| :: a[m] == a[..|s|][m];
    }
    var j := i;
    while a[j + k - 1] != NUL
      invariant i <= j <= |s| - k + 1
      invariant forall m :: 0 <= m < i ==> a[m] == t[m]
      invariant forall m :: i <= m < j ==> a[m] == t[m + k]
      invariant forall m :: j <= m < |t| ==> a[m] == t[m]
      decreases |s| - j
    {
      a[j] := a[j + k];
      j := j + 1;
    }
    Closed(a, i, k, s, j);
  }

  /** The gap is closed once the copying has met the terminator. */
  lemma Closed(a: array<char>, i: nat, k: nat, s: string, j: nat)
    requires 0 < k && i + k <= |s| < a.Length && NUL !in s && i <= j <= |s| - k + 1 && (s + [NUL])[j + k - 1] == NUL
    requires forall m :: 0 <= m < i ==> a[m] == s[m]
    requires forall m :: i <= m < j ==> a[m] == (s + [NUL])[m + k]
    ensures Holds(a, s[..i] + s[i + k..])
  {
    var r := s[..i] + s[i + k..];
    assert forall m | 0 <= m < |s| :: (s + [NUL])[m] == s[m] && s[m] in s;
    assert j == |s| - k + 1;
    assert a[|r|] == (s + [NUL])[|s|];
    assert forall m | 0 <= m < |r| :: a[m] == r[m];
    assert a[..|r|] == r;
  }

  /** Overwrites from `i` with the tail at `i + k`, testing the character just copied. */
  method CopyDown(a: array<char>, i: nat, k: nat, ghost s: string)
    requires Holds(a, s) && 0 < k && i + k <= |s|
    modifies a
    ensures Holds(a, s[..i] + s[i + k..])
  {
    ghost var t := s + [NUL];
    assert forall m | 0 <= m < |t| :: a[m] == t[m] by {
      assert forall m | 0 <= m < |s| :: a[m] == a[..|s|][m];
    }
    var j := i;
    a[j] := a[j + k];
    while a[j] != NUL
      invariant i <= j <= |s| - k && a[j] == t[j + k]
      invariant forall m :: 0 <= m < i ==> a[m] == t[m]
      invariant forall m :: i <= m < j ==> a[m] == t[m + k]
      invariant forall m :: j < m < |t| ==> a[m] == t[m]
      decreases |s| - j
    {
      assert j < |s| - k;
      j := j + 1;
      a[j] := a[j + k];
    }
    Closed(a, i, k, s, j + 1);
  }

  /** Writes the terminator over position `n`. */
  method Terminate(a: array<char>, n: nat, ghost s: string)
    requires Holds(a, s) && n <= |s|
    modifies a
    ensures Holds(a, s[..n])
  {
    a[n] := NUL;
    assert a[..n] == s[..n];
  }

  /** The last slash before `i`, looked for backwards. */
  method SlashBefore(a: array<char>, i: nat, ghost s: string) returns (k: nat)
    requires Holds(a, s) && 0 < i <= |s| && s[0] == '/'
    ensures k < i && s[k] == '/' && '/' !in s[k + 1..i]
  {
    k := i - 1;
    assert forall m | 0 <= m < |s| :: a[m] == a[..|s|][m];
    while a[k] != '/'
      invariant k < i && '/' !in s[k + 1..i]
      decreases k
    {
      assert s[k..i] == [s[k]] + s[k + 1..i];
      k := k - 1;
    }
  }

  // ---------------------------------------------------------------- the rewriting loops

  /** "//" becomes "/" until there is none. */
  method DropEmpties(a: array<char>, ghost s: string) returns (ghost t: string)
    requires Holds(a, s)
    modifies a
    ensures Holds(a, t) && Resolve(t) == Resolve(s) && Absolute(t) == Absolute(s)
    ensures Absent(t, "//")
  {
    hide Resolve, Absolute;
    t := s;
    var found, i := StrStr(a, "//", t);
    while found
      invariant Holds(a, t) && Resolve(t) == Resolve(s) && Absolute(t) == Absolute(s)
      invariant if found then Occurs(t, "//", i) else Absent(t, "//")
      decreases |t|, found
    {
      DropEmpty(t, i);
      ShiftOut(a, i, 1, t);
      t := t[..i] + t[i + 1..];
      found, i := StrStr(a, "//", t);
    }
  }

  /** "/./" becomes "/" until there is none. */
  method DropDots(a: array<char>, ghost s: string) returns (ghost t: string)
    requires Holds(a, s) && Absent(s, "//")
    modifies a
    ensures Holds(a, t) && Resolve(t) == Resolve(s) && Absolute(t) == Absolute(s)
    ensures Absent(t, "//") && Absent(t, "/./")
  {
    hide Resolve, Absolute, Absent;
    t := s;
    var found, i := StrStr(a, "/./", t);
    while found
      invariant Holds(a, t) && Resolve(t) == Resolve(s) && Absolute(t) == Absolute(s) && Absent(t, "//")
      invariant if found then Occurs(t, "/./", i) else Absent(t, "/./")
      decreases |t|, found
    {
      DropDot(t, i);
      OccursAt(t, "/./", i);
      assert t[i + 2] == "/./"[2];
      JoinAbsent(t, i, i + 2, "//");
      ShiftOut(a, i, 2, t);
      t := t[..i] + t[i + 2..];
      found, i := StrStr(a, "/./", t);
    }
  }

  ghost predicate Tidy(t: string)
  {
    Absolute(t) && Absent(t, "//") && Absent(t, "/./")
  }

  /** One name and the ".." behind it go. */
  method DropName(a: array<char>, i: nat, ghost t: string) returns (ghost u: string)
    requires Holds(a, t) && Tidy(t) && Occurs(t, "/../", i) && 0 < i
    requires forall j: nat :: j < i ==> !Occurs(t, "/../", j)
    modifies a
    ensures Holds(a, u) && Tidy(u) && Resolve(u) == Resolve(t) && |u| < |t|
  {
    hide Resolve, Absent;
    var k := SlashBefore(a, i, t);
    OccursAt(t, "/../", i);
    assert t[i] == "/../"[0] && t[i + 3] == "/../"[3];
    BetweenSlashes(t, k, i);
    DropDotDot(t, k, i);
    JoinAbsent(t, k, i + 3, "//");
    JoinAbsent(t, k, i + 3, "/./");
    CopyDown(a, k, i + 3 - k, t);
    u := t[..k] + t[i + 3..];
  }

  /** "/name/../" becomes "/" until there is none, or the path leaves the root. */
  method DropNames(a: array<char>, ghost s: string) returns (ok: bool, ghost t: string)
    requires Holds(a, s) && Tidy(s)
    modifies a
    ensures Holds(a, t) && Tidy(t) && Resolve(t) == Resolve(s)
    ensures ok ==> Absent(t, "/../")
    ensures !ok ==> Resolve(s) == None
  {
    hide Resolve, Tidy, Absent;
    t := s;
    var found, i := StrStr(a, "/../", t);
    while found
      invariant Holds(a, t) && Tidy(t) && Resolve(t) == Resolve(s)
      invariant found ==> Occurs(t, "/../", i) && forall j: nat :: j < i ==> !Occurs(t, "/../", j)
      invariant !found ==> Absent(t, "/../")
      decreases |t|, found
    {
      var leading := Match(a, 0, "/../", t);
      if leading {
        LeadingDotDot(t);
        return false, t;
      }
      t := DropName(a, i, t);
      found, i := StrStr(a, "/../", t);
    }
    ok := true;
  }

  // ---------------------------------------------------------------- the end of the path

  /** What a successful normalisation leaves: the path itself, the root as "/" or "". */
  ghost predicate Normal(t: string)
  {
    Clean(t) || t == "/"
  }

  /** A closing "" or "." component means nothing. */
  lemma CutQuiet(t: string, c: string)
    requires c == "" || c == "."
    requires Tidy(t) && Absent(t, "/../") && |t| > |c| && t[|t| - |c| - 1..] == "/" + c
    ensures Resolve(t[..|t| - |c| - 1]) == Resolve(t) && Clean(t[..|t| - |c| - 1])
  {
    hide Split, Walk, Resolve;
    var k := |t| - |c| - 1;
    assert t[k] == t[k..][0];
    assert t == t[..k] + "/" + c by { assert t == t[..k] + t[k..]; }
    ResolveSnoc(t[..k], c);
    if Resolve(t[..k]).Some? {
      WalkOne(Resolve(t[..k]).value, c);
    }
    CutIsClean(t, k);
  }

  /** A closing ".." takes the name before it away. */
  lemma CutName(t: string, k: nat)
    requires Tidy(t) && Absent(t, "/../") && |t| > 3 && t[|t| - 3..] == "/.."
    requires k < |t| - 3 && t[k] == '/' && '/' !in t[k + 1..|t| - 3]
    ensures Resolve(t[..k]) == Resolve(t) && Clean(t[..k])
  {
    hide Resolve;
    var i := |t| - 3;
    assert t[i] == t[i..][0];
    BetweenSlashes(t, k, i);
    var a, x := t[..k], t[k + 1..i];
    assert t == (a + "/" + x) + "/" + ".." by { assert t == t[..k] + t[k..k + 1] + t[k + 1..i] + t[i..]; }
    NameThenDotDot(a, x);
    CutIsClean(t, k);
  }

  /** A closing slash is dropped unless it is the whole path. */
  method DropTrailingSlash(a: array<char>, ghost s: string) returns (len: nat, ghost t: string)
    requires Holds(a, s) && Tidy(s) && Absent(s, "/../")
    modifies a
    ensures Holds(a, t) && Tidy(t) && Absent(t, "/../") && Resolve(t) == Resolve(s) && len == |t|
    ensures t == "/" || !EndsIn(t, "/")
  {
    hide Resolve, Absent;
    t := s;
    len := StrLen(a, s);
    if len > 1 {
      assert a[len - 1] == a[..|s|][len - 1];
      if a[len - 1] == '/' {
        CutQuiet(s, "") by { assert s[len - 1..] == "/" + ""; }
        Terminate(a, len - 1, s);
        len := len - 1;
        t := s[..len];
      }
    } else {
      assert s == "/";
    }
  }

  /** The tests on the end of the path, once no pattern is left inside it. */
  method Finish(a: array<char>, ghost s: string) returns (ok: bool, ghost t: string)
    requires Holds(a, s) && Tidy(s) && Absent(s, "/../")
    modifies a
    ensures Holds(a, t) && Resolve(t) == Resolve(s)
    ensures if ok then Normal(t) else Resolve(s) == None
  {
    hide Resolve, Absent;
    var len;
    len, t := DropTrailingSlash(a, s);
    Chars(a, t);
    if a[0] == NUL {
      assert false;
    }
    len, t := DropTrailingDot(a, len, t);
    ok, t := FinishDotDot(a, len, t);
  }

  /** A closing "." is dropped together with its slash. */
  method DropTrailingDot(a: array<char>, n: nat, ghost s: string) returns (len: nat, ghost t: string)
    requires Holds(a, s) && Tidy(s) && Absent(s, "/../") && n == |s| && (s == "/" || !EndsIn(s, "/"))
    modifies a
    ensures Holds(a, t) && len == |t| && Resolve(t) == Resolve(s)
    ensures Clean(t) || (t == s && !EndsIn(s, "/."))
  {
    hide Resolve, Absent;
    len, t := n, s;
    if len >= 2 {
      var dot := Equal(a, len - 2, "/.", s);
      if dot {
        CutQuiet(s, ".") by { assert "/" + "." == "/."; }
        Terminate(a, len - 2, s);
        len := len - 2;
        t := s[..len];
      }
    }
  }

  /** A path on which at most a closing ".." is left to work off. */
  ghost predicate Ending(s: string)
  {
    Clean(s) || (Tidy(s) && Absent(s, "/../") && !EndsIn(s, "/.") && (s == "/" || !EndsIn(s, "/")))
  }

  lemma NothingAtEnd(s: string)
    requires Ending(s) && (|s| < 3 || s[|s| - 3..] != "/..")
    ensures Normal(s)
  {
    hide Absent;
  }

  lemma DotDotAtEnd(s: string)
    requires Ending(s) && |s| >= 3 && s[|s| - 3..] == "/.."
    ensures Tidy(s) && Absent(s, "/../") && s[0] == '/'
  {
    hide Absent;
  }

  /** The last two tests. */
  method FinishDotDot(a: array<char>, len: nat, ghost s: string) returns (ok: bool, ghost t: string)
    requires Holds(a, s) && len == |s|
    requires Ending(s)
    modifies a
    ensures Holds(a, t) && Resolve(t) == Resolve(s)
    ensures if ok then Normal(t) else Resolve(s) == None
  {
    hide Resolve, Absent, Ending, Tidy, Normal;
    t := s;
    var whole := Equal(a, 0, "/..", s);
    assert s[0..] == s;
    if whole {
      LeadingDotDot(s);
      return false, s;
    }
    ok := true;
    if len >= 3 {
      var dotdot := Equal(a, len - 3, "/..", s);
      if dotdot {
        DotDotAtEnd(s);
        t := DropLastName(a, len, s);
        return;
      }
    }
    NothingAtEnd(s);
  }

  /** A closing ".." goes together with the name before it. */
  method DropLastName(a: array<char>, len: nat, ghost s: string) returns (ghost t: string)
    requires Holds(a, s) && len == |s| > 3 && Tidy(s) && Absent(s, "/../") && s[len - 3..] == "/.."
    modifies a
    ensures Holds(a, t) && Resolve(t) == Resolve(s) && Normal(t)
  {
    hide Resolve, Absent;
    var k := SlashBefore(a, len - 3, s);
    CutName(s, k);
    Terminate(a, k, s);
    t := s[..k];
  }

  // ---------------------------------------------------------------- the whole function

  /** The path a stack of components comes out as; the root has two spellings. */
  predicate Spells(t: string, stack: seq<string>)
  {
    t == Render(stack) || (stack == [] && t == "/")
  }

  lemma NormalSpells(t: string)
    requires Normal(t)
    ensures Resolve(t).Some? && Spells(t, Resolve(t).value)
  {
    hide Split, Walk, Resolve;
    if t == "/" {
      ResolveNothing();
      assert t == "" + "/" + "";
      ResolveSnoc("", "");
      WalkOne([], "");
    } else {
      CleanIsRendered(t);
    }
  }

  /** Succeeds exactly for absolute paths that stay below the root; the buffer then names the same stack. */
  method NormalizePath(a: array<char>) returns (ok: bool)
    requires NUL in a[..]
    modifies a
    ensures NUL in a[..]
    ensures ok <==> Absolute(CString(old(a[..]))) && Resolve(CString(old(a[..]))).Some?
    ensures ok ==> Spells(CString(a[..]), Resolve(CString(old(a[..]))).value)
    ensures ok ==> Resolve(CString(a[..])) == Resolve(CString(old(a[..])))
  {
    hide Resolve, Absent, Clean, Render;
    ghost var s := CString(a[..]);
    assert a[..][..|s|] == a[..|s|];
    ghost var t := DropEmpties(a, s);
    t := DropDots(a, t);
    CStringUnique(a[..], t) by { assert a[..][..|t|] == a[..|t|]; }
    assert a[..][|t|] == NUL;
    var leading := Match(a, 0, "/../", t);
    if leading {
      LeadingDotDot(t);
      return false;
    }
    assert t != "" ==> a[0] == a[..|t|][0];
    if a[0] != '/' {
      return false;
    }
    ok, t := DropNames(a, t);
    assert a[..][|t|] == NUL;
    if !ok {
      return;
    }
    ok, t := Finish(a, t);
    assert a[..][|t|] == NUL;
    if ok {
      NormalSpells(t);
      CStringUnique(a[..], t) by { assert a[..][..|t|] == a[..|t|]; }
    }
  }
}
