/** Lexical path resolution, and why each rewriting step of `nfs_normalize_path` keeps it. */
module Paths {
  import opened Bytes

  /** The components of a path: what stands between the slashes. */
  function Split(s: string): (cs: seq<string>)
    ensures cs != []
  {
    if s == "" then [""]
    else if s[0] == '/' then [""] + Split(s[1..])
    else
      var rest := Split(s[1..]);
      [[s[0]] + rest[0]] + rest[1..]
  }

  /** Walks the components with a stack: "" and "." stay, ".." pops, anything else is pushed. */
  function Walk(stack: seq<string>, cs: seq<string>): (r: Option<seq<string>>)
    decreases |cs|
  {
    if cs == [] then Some(stack)
    else if cs[0] == "" || cs[0] == "." then Walk(stack, cs[1..])
    else if cs[0] == ".." then (if stack == [] then None else Walk(stack[..|stack| - 1], cs[1..]))
    else Walk(stack + [cs[0]], cs[1..])
  }

  /** What a path means: the components that remain, or nothing if ".." leaves the root. */
  function Resolve(s: string): (r: Option<seq<string>>)
  {
    Walk([], Split(s))
  }

  predicate Absolute(s: string)
  {
    s != "" && s[0] == '/'
  }

  /** The path that names a stack of components. */
  function Render(stack: seq<string>): (s: string)
  {
    if stack == [] then "" else Render(stack[..|stack| - 1]) + "/" + stack[|stack| - 1]
  }

  /** An ordinary name. */
  predicate Plain(x: string)
  {
    x != "" && x != "." && x != ".." && '/' !in x
  }

  predicate Occurs(s: string, pat: string, i: nat)
  {
    i + |pat| <= |s| && s[i..i + |pat|] == pat
  }

  ghost predicate Absent(s: string, pat: string)
  {
    forall i: nat :: !Occurs(s, pat, i)
  }

  // ---------------------------------------------------------------- splitting and walking

  lemma {:induction false} SplitConcat(a: string, b: string)
    ensures Split(a + "/" + b) == Split(a) + Split(b)
  {
    var s := a + "/" + b;
    if a == "" {
      assert s[1..] == b;
    } else {
      assert s[1..] == a[1..] + "/" + b;
      SplitConcat(a[1..], b);
    }
  }

  lemma {:induction false} SplitPlain(x: string)
    requires '/' !in x
    ensures Split(x) == [x]
  {
    if x != "" {
      SplitPlain(x[1..]);
      assert [x[0]] + x[1..] == x;
    }
  }

  lemma {:induction false} WalkAppend(stack: seq<string>, a: seq<string>, b: seq<string>)
    ensures Walk(stack, a + b) == (var r := Walk(stack, a); if r.None? then None else Walk(r.value, b))
    decreases |a|
  {
    if a == [] {
      assert a + b == b;
    } else {
      assert (a + b)[1..] == a[1..] + b;
      if a[0] == "" || a[0] == "." {
        WalkAppend(stack, a[1..], b);
      } else if a[0] == ".." {
        if stack != [] {
          WalkAppend(stack[..|stack| - 1], a[1..], b);
        }
      } else {
        WalkAppend(stack + [a[0]], a[1..], b);
      }
    }
  }

  /** A single component. */
  lemma WalkOne(stack: seq<string>, c: string)
    ensures Walk(stack, [c]) == if c == "" || c == "." then Some(stack)
                                else if c == ".." then (if stack == [] then None else Some(stack[..|stack| - 1]))
                                else Some(stack + [c])
  {
    assert [c][1..] == [];
  }

  /** Resolving a path that ends in component `c`. */
  lemma ResolveSnoc(a: string, c: string)
    requires '/' !in c
    ensures Resolve(a + "/" + c) == (var r := Resolve(a); if r.None? then None else Walk(r.value, [c]))
  {
    SplitConcat(a, c);
    SplitPlain(c);
    WalkAppend([], Split(a), [c]);
  }

  /** Equal resolution of a prefix is all that matters to what follows a slash. */
  lemma ResolvePrefix(a: string, a': string, b: string)
    requires Resolve(a) == Resolve(a')
    ensures Resolve(a + "/" + b) == Resolve(a' + "/" + b)
  {
    SplitConcat(a, b);
    SplitConcat(a', b);
    WalkAppend([], Split(a), Split(b));
    WalkAppend([], Split(a'), Split(b));
  }

  // ---------------------------------------------------------------- the rewriting steps

  /** Dropping an empty component. */
  lemma DropEmpty(s: string, i: nat)
    requires Occurs(s, "//", i)
    ensures Resolve(s[..i] + s[i + 1..]) == Resolve(s)
    ensures Absolute(s[..i] + s[i + 1..]) == Absolute(s)
  {
    var a, b := s[..i], s[i + 2..];
    OccursAt(s, "//", i);
    assert s == (a + "/" + "") + "/" + b;
    assert s[..i] + s[i + 1..] == a + "/" + b;
    ResolveSnoc(a, "");
    if Resolve(a).Some? {
      WalkOne(Resolve(a).value, "");
    }
    ResolvePrefix(a, a + "/" + "", b);
  }

  /** Dropping a "." component. */
  lemma DropDot(s: string, i: nat)
    requires Occurs(s, "/./", i)
    ensures Resolve(s[..i] + s[i + 2..]) == Resolve(s)
    ensures Absolute(s[..i] + s[i + 2..]) == Absolute(s)
  {
    var a, b := s[..i], s[i + 3..];
    OccursAt(s, "/./", i);
    assert s == (a + "/" + ".") + "/" + b;
    assert s[..i] + s[i + 2..] == a + "/" + b;
    ResolveSnoc(a, ".");
    if Resolve(a).Some? {
      WalkOne(Resolve(a).value, ".");
    }
    ResolvePrefix(a, a + "/" + ".", b);
  }

  /** A name and the ".." behind it cancel. */
  lemma NameThenDotDot(a: string, x: string)
    requires Plain(x)
    ensures Resolve((a + "/" + x) + "/" + "..") == Resolve(a)
  {
    ResolveSnoc(a, x);
    ResolveSnoc(a + "/" + x, "..");
    var r := Resolve(a);
    if r.Some? {
      WalkOne(r.value, x);
      WalkOne(r.value + [x], "..");
      assert (r.value + [x])[..|r.value|] == r.value;
    }
  }

  /** Dropping a name and the ".." that follows it. */
  lemma DropDotDot(s: string, k: nat, i: nat)
    requires k < i && Occurs(s, "/../", i) && s[k] == '/' && Plain(s[k + 1..i])
    ensures Resolve(s[..k] + s[i + 3..]) == Resolve(s)
    ensures Absolute(s[..k] + s[i + 3..]) == Absolute(s)
  {
    var a, x, b := s[..k], s[k + 1..i], s[i + 4..];
    OccursAt(s, "/../", i);
    assert s == ((a + "/" + x) + "/" + "..") + "/" + b;
    assert s[..k] + s[i + 3..] == a + "/" + b;
    NameThenDotDot(a, x);
    ResolvePrefix(a, (a + "/" + x) + "/" + "..", b);
  }

  lemma ResolveNothing()
    ensures Resolve("") == Some([]) && Render([]) == ""
  {
    WalkOne([], "");
  }

  lemma DotDotAtRoot()
    ensures Resolve("/..") == None
  {
    hide Split, Walk, Resolve;
    ResolveNothing();
    ResolveSnoc("", "..");
    WalkOne([], "..");
    assert "" + "/" + ".." == "/..";
  }

  /** What leaves the root at some prefix has no meaning. */
  lemma NoReturn(a: string, b: string)
    requires Resolve(a) == None
    ensures Resolve(a + "/" + b) == None
  {
    SplitConcat(a, b);
    WalkAppend([], Split(a), Split(b));
  }

  lemma DotDotFirst(s: string)
    requires Occurs(s, "/../", 0)
    ensures |s| >= 4 && s[0] == '/' && s == "/.." + "/" + s[4..]
  {
    assert s == s[0..0 + 4] + s[4..];
  }

  /** A leading ".." leaves the root. */
  lemma LeadingDotDot(s: string)
    requires Occurs(s, "/../", 0) || s == "/.."
    ensures Resolve(s) == None && Absolute(s)
  {
    hide Split, Walk, Resolve, Occurs;
    DotDotAtRoot();
    if s != "/.." {
      DotDotFirst(s);
      NoReturn("/..", s[4..]);
    }
  }

  lemma OccursAt(s: string, pat: string, i: nat)
    requires Occurs(s, pat, i)
    ensures s == s[..i] + pat + s[i + |pat|..]
    ensures forall m :: i <= m < i + |pat| ==> s[m] == pat[m - i]
  {
    assert forall m | i <= m < i + |pat| :: s[m] == s[i..i + |pat|][m - i];
  }

  // ---------------------------------------------------------------- patterns that stay away

  /** Joining two parts of `s` at a slash brings in no pattern without a slash inside. */
  lemma JoinAbsent(s: string, i: nat, j: nat, pat: string)
    requires i <= j < |s| && s[i] == s[j] == '/' && Absent(s, pat)
    requires pat == "//" || pat == "/./"
    ensures Absent(s[..i] + s[j..], pat)
  {
    var t := s[..i] + s[j..];
    forall k: nat ensures !Occurs(t, pat, k) {
      if Occurs(t, pat, k) {
        OccursAt(t, pat, k);
        assert t[i] == '/';
        if k >= i {
          assert t[k..k + |pat|] == s[k + j - i..k + j - i + |pat|];
          assert Occurs(s, pat, k + j - i);
        } else if k + |pat| <= i + 1 {
          assert forall m | k <= m < k + |pat| :: t[m] == s[m];
          assert s[k..k + |pat|] == pat;
          assert Occurs(s, pat, k);
        }
      }
    }
  }

  lemma PrefixAbsent(s: string, n: nat, pat: string)
    requires n <= |s| && Absent(s, pat)
    ensures Absent(s[..n], pat)
  {
    forall k: nat ensures !Occurs(s[..n], pat, k) {
      if k + |pat| <= n {
        assert s[..n][k..k + |pat|] == s[k..k + |pat|];
        assert !Occurs(s, pat, k);
      }
    }
  }

  /** Position of the last slash before `n`. */
  function LastSlash(s: string, n: nat): (k: nat)
    requires n <= |s| && exists i :: 0 <= i < n && s[i] == '/'
    ensures k < n && s[k] == '/' && '/' !in s[k + 1..n]
  {
    if s[n - 1] == '/' then n - 1 else LastSlash(s, n - 1)
  }

  /** Between two slashes of a path without "//", "/./" and an earlier "/../" stands a plain name. */
  lemma BetweenSlashes(s: string, k: nat, i: nat)
    requires k < i < |s| && s[k] == s[i] == '/' && '/' !in s[k + 1..i]
    requires Absent(s, "//") && Absent(s, "/./") && !Occurs(s, "/../", k)
    ensures Plain(s[k + 1..i])
  {
    var x := s[k + 1..i];
    assert s[k..i + 1] == "/" + x + "/";
    assert x == "" ==> Occurs(s, "//", k);
    assert x == "." ==> Occurs(s, "/./", k);
    assert x == ".." ==> Occurs(s, "/../", k);
  }

  // ---------------------------------------------------------------- clean paths

  predicate EndsIn(s: string, pat: string)
  {
    |s| >= |pat| && s[|s| - |pat|..] == pat
  }

  /** Nothing is left to rewrite. */
  ghost predicate Clean(s: string)
  {
    && (s == "" || s[0] == '/')
    && Absent(s, "//") && Absent(s, "/./") && Absent(s, "/../")
    && !EndsIn(s, "/") && !EndsIn(s, "/.") && !EndsIn(s, "/..")
  }

  lemma EndsBeforeSlash(s: string, k: nat, pat: string, whole: string)
    requires k < |s| && s[k] == '/' && Absent(s, whole) && whole == pat + "/"
    ensures !EndsIn(s[..k], pat)
  {
    if |pat| <= k {
      assert !Occurs(s, whole, k - |pat|);
      assert s[k - |pat|..k + 1] == s[..k][k - |pat|..] + "/";
      assert s[k - |pat|..k - |pat| + |whole|] == s[k - |pat|..k + 1];
    }
  }

  /** A path cut before an inner slash ends in a plain name. */
  lemma CutIsClean(s: string, k: nat)
    requires k < |s| && s[k] == '/' && s[0] == '/'
    requires Absent(s, "//") && Absent(s, "/./") && Absent(s, "/../")
    ensures Clean(s[..k])
  {
    var a := s[..k];
    PrefixAbsent(s, k, "//");
    PrefixAbsent(s, k, "/./");
    PrefixAbsent(s, k, "/../");
    EndsBeforeSlash(s, k, "/", "//");
    EndsBeforeSlash(s, k, "/.", "/./");
    EndsBeforeSlash(s, k, "/..", "/../");
  }

  /** What follows the last slash of a clean path. */
  lemma LastName(s: string, k: nat)
    requires k < |s| && s[k] == '/' && '/' !in s[k + 1..]
    requires !EndsIn(s, "/") && !EndsIn(s, "/.") && !EndsIn(s, "/..")
    ensures Plain(s[k + 1..]) && s == s[..k] + "/" + s[k + 1..]
  {
    var x := s[k + 1..];
    assert s[k..] == "/" + x;
    assert s[|s| - |"/" + x|..] == s[k..];
    assert x == "" ==> "/" + x == "/";
    assert x == "." ==> "/" + x == "/.";
    assert x == ".." ==> "/" + x == "/..";
    assert EndsIn(s, "/" + x);
  }

  /** A rendered path followed by a name. */
  lemma PushPlain(a: string, x: string)
    requires Plain(x) && Resolve(a).Some? && a == Render(Resolve(a).value)
    ensures Resolve(a + "/" + x) == Some(Resolve(a).value + [x])
    ensures a + "/" + x == Render(Resolve(a).value + [x])
  {
    hide Split, Walk, Resolve;
    ResolveSnoc(a, x);
    var st := Resolve(a).value;
    WalkOne(st, x);
    assert (st + [x])[..|st|] == st;
  }

  /** A clean path is the rendering of its own resolution. */
  lemma {:induction false} CleanIsRendered(s: string)
    requires Clean(s)
    ensures Resolve(s).Some? && s == Render(Resolve(s).value)
    decreases |s|
  {
    hide Split, Walk, Render, Resolve, LastSlash, Absent, EndsIn, Clean, Plain;
    if s == "" {
      ResolveNothing();
    } else {
      var k := CleanCut(s);
      CleanIsRendered(s[..k]);
      PushPlain(s[..k], s[k + 1..]);
    }
  }

  /** The last component of a clean path, and the clean path before it. */
  lemma CleanCut(s: string) returns (k: nat)
    requires Clean(s) && s != ""
    ensures k < |s| && Clean(s[..k]) && Plain(s[k + 1..]) && s == s[..k] + "/" + s[k + 1..]
  {
    hide LastSlash, Absent, EndsIn, Plain;
    assert s[0] == '/';
    k := LastSlash(s, |s|);
    assert s[k + 1..|s|] == s[k + 1..];
    CutIsClean(s, k);
    LastName(s, k);
  }

  /** Every component a path resolves to is a plain name. */
  lemma {:induction false} WalkPlain(stack: seq<string>, cs: seq<string>)
    requires forall x :: x in stack ==> Plain(x)
    requires forall c :: c in cs ==> '/' !in c
    ensures Walk(stack, cs).Some? ==> forall x :: x in Walk(stack, cs).value ==> Plain(x)
    decreases |cs|
  {
    if cs != [] {
      assert cs[0] in cs;
      if cs[0] == "" || cs[0] == "." {
        WalkPlain(stack, cs[1..]);
      } else if cs[0] == ".." {
        if stack != [] {
          WalkPlain(stack[..|stack| - 1], cs[1..]);
        }
      } else {
        WalkPlain(stack + [cs[0]], cs[1..]);
      }
    }
  }

  lemma {:induction false} SplitSlashFree(s: string)
    ensures forall c :: c in Split(s) ==> '/' !in c
  {
    if s != "" {
      SplitSlashFree(s[1..]);
      assert Split(s[1..])[0] in Split(s[1..]);
    }
  }

  /** The path spelled from a stack of plain names resolves to that stack: normal forms are fixed points. */
  lemma {:induction false} ResolveRender(stack: seq<string>)
    requires forall x :: x in stack ==> Plain(x)
    ensures Resolve(Render(stack)) == Some(stack)
  {
    hide Split, Walk, Resolve;
    if stack == [] {
      ResolveNothing();
    } else {
      var st, x := stack[..|stack| - 1], stack[|stack| - 1];
      assert forall y :: y in st ==> y in stack;
      assert x in stack;
      ResolveRender(st);
      ResolveSnoc(Render(st), x);
      WalkOne(st, x);
      assert st + [x] == stack && Plain(x);
    }
  }

  /** Two paths have one normal form exactly when they resolve alike. */
  lemma RenderInjective(s: string, t: string)
    requires Resolve(s).Some? && Resolve(t).Some?
    ensures Render(Resolve(s).value) == Render(Resolve(t).value) <==> Resolve(s) == Resolve(t)
  {
    SplitSlashFree(s);
    SplitSlashFree(t);
    WalkPlain([], Split(s));
    WalkPlain([], Split(t));
    ResolveRender(Resolve(s).value);
    ResolveRender(Resolve(t).value);
  }
}
