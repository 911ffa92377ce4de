/** The asynchronous path lookup of NFSv3, callback by callback, against the resolver. */
module Lookup {
  import opened Bytes
  import opened Paths
  import opened Normalize
  import opened Resolver

  /** Names with slashes between them. */
  function Join(names: seq<string>): (s: string)
  {
    if names == [] then ""
    else if |names| == 1 then names[0]
    else names[0] + "/" + Join(names[1..])
  }

  lemma {:induction false} SplitJoin(names: seq<string>)
    requires names != [] && Names(names)
    ensures Split(Join(names)) == names
    decreases |names|
  {
    assert names[0] in names;
    SplitPlain(names[0]);
    if |names| == 1 {
      assert names == [names[0]];
    } else {
      SplitJoin(names[1..]);
      SplitConcat(names[0], Join(names[1..]));
      assert [names[0]] + names[1..] == names;
    }
  }

  lemma JoinStep(rest: seq<string>)
    ensures rest != [] ==> Join(rest) == rest[0] + if |rest| == 1 then "" else "/" + Join(rest[1..])
  {
    if |rest| == 1 {
      assert rest[0] + "" == rest[0];
    } else if rest != [] {
      assert rest[0] + "/" + Join(rest[1..]) == rest[0] + ("/" + Join(rest[1..]));
    }
  }

  /** A rendered path falls apart at every component. */
  lemma {:induction false} RenderApart(done: seq<string>, rest: seq<string>)
    ensures Render(done + rest) == Render(done) + if rest == [] then "" else "/" + Join(rest)
    decreases |rest|
  {
    hide Join;
    JoinStep(rest);
    if rest == [] {
      assert done + rest == done;
    } else {
      var step := done + [rest[0]];
      assert step[..|done|] == done;
      assert done + rest == step + rest[1..];
      RenderApart(step, rest[1..]);
      if |rest| == 1 {
        assert rest[1..] == [];
      }
    }
  }

  /** Where the cursor stands in the saved path: `done` behind it, `rest` ahead. */
  ghost predicate At(saved: string, pos: nat, done: seq<string>, rest: seq<string>)
  {
    && pos <= |saved| && Names(done) && Names(rest)
    && saved[pos..] == Join(rest)
    && (saved[..pos] == Render(done) + (if rest == [] then "" else "/") || (done == [] && rest == [] && saved == "/"))
  }

  lemma AtStart(saved: string, stack: seq<string>)
    requires Names(stack) && Spells(saved, stack)
    ensures stack != [] ==> saved != "" && saved[0] == '/' && At(saved, 1, [], stack)
    ensures stack == [] ==> At(saved, |saved|, [], stack) && (saved == "" || saved == "/")
  {
    RenderApart([], stack);
    assert [] + stack == stack;
  }

  /** One name further. */
  lemma AtNext(saved: string, pos: nat, done: seq<string>, rest: seq<string>)
    requires At(saved, pos, done, rest) && rest != []
    ensures pos + |rest[0]| <= |saved| && saved[pos..pos + |rest[0]|] == rest[0] && Plain(rest[0])
    ensures |rest| == 1 ==> pos + |rest[0]| == |saved| && At(saved, |saved|, done + [rest[0]], [])
    ensures |rest| > 1 ==> pos + |rest[0]| < |saved| && saved[pos + |rest[0]|] == '/'
    ensures |rest| > 1 ==> At(saved, pos + |rest[0]| + 1, done + [rest[0]], rest[1..])
  {
    var x := rest[0];
    assert x in rest;
    assert saved == saved[..pos] + saved[pos..];
    var step := done + [x];
    assert step[..|done|] == done;
    assert Names(step);
    if |rest| == 1 {
      assert saved == Render(done) + "/" + x;
      assert saved[..|saved|] == saved;
    } else {
      assert Names(rest[1..]);
      assert saved == Render(done) + "/" + x + "/" + Join(rest[1..]);
    }
  }

  lemma JoinStart(rest: seq<string>)
    requires Names(rest)
    ensures rest == [] <==> Join(rest) == ""
    ensures rest != [] ==> Join(rest)[0] != '/'
  {
    if rest != [] {
      assert rest[0] in rest;
      assert rest[0][0] in rest[0];
    }
  }

  // ---------------------------------------------------------------- worked-in links

  /** The path built for a relative link resolves to the link's target. */
  lemma RelativeTarget(e: string, done: seq<string>, rest: seq<string>, text: string)
    requires Names(done) && Names(rest) && !Absolute(text)
    ensures var p := Render(done) + "/../" + text + (if rest == [] then "" else "/" + Join(rest));
            Absolute(p) && Resolve(p) == Target(e, done, rest, text)
  {
    hide Split, Walk, Resolve, Render, Join, Names;
    var head := Render(done) + "/" + "..";
    UpOne(done);
    if rest == [] {
      assert Render(done) + "/../" + text + "" == head + "/" + text;
      assert Split(text) + rest == Split(text);
      ResolveThen(head, text);
    } else {
      var tail := text + "/" + Join(rest);
      assert Render(done) + "/../" + text + ("/" + Join(rest)) == head + "/" + tail;
      SplitConcat(text, Join(rest));
      SplitJoin(rest);
      ResolveThen(head, tail);
    }
    RenderAbsolute(done);
  }

  lemma RenderAbsolute(done: seq<string>)
    ensures done != [] ==> Absolute(Render(done))
    ensures done == [] ==> Render(done) == ""
  {
  }

  lemma ResolveThen(a: string, b: string)
    ensures Resolve(a + "/" + b) == (var r := Resolve(a); if r.None? then None else Walk(r.value, Split(b)))
  {
    SplitConcat(a, b);
    WalkAppend([], Split(a), Split(b));
  }

  lemma UpOne(done: seq<string>)
    requires Names(done)
    ensures Resolve(Render(done) + "/" + "..") == if done == [] then None else Some(done[..|done| - 1])
  {
    hide Split, Walk, Resolve;
    ResolveRender(done);
    ResolveSnoc(Render(done), "..");
    WalkOne(done, "..");
  }

  lemma NamesOf(s: string)
    requires Resolve(s).Some?
    ensures Names(Resolve(s).value)
  {
    SplitSlashFree(s);
    WalkPlain([], Split(s));
  }

  /** The suffix of an absolute link behind the export, as the code spells it. */
  lemma AbsoluteTarget(e: string, done: seq<string>, rest: seq<string>, text: string)
    requires Absolute(text)
    ensures InsideExport(text, e) ==>
              var p := if |text| == |e| then "/" else text[|e|..];
              Absolute(p) && Resolve(p) == Target(e, done, rest, text)
    ensures !InsideExport(text, e) ==> Target(e, done, rest, text) == None
  {
    hide Split, Walk, Resolve;
    if |text| == |e| {
      assert text[|e|..] == "";
      ResolveNothing();
      assert "/" == "" + "/" + "";
      ResolveSnoc("", "");
      WalkOne([], "");
    }
  }

  // ---------------------------------------------------------------- the callback data

  /** The request whose reply is awaited. */
  datatype Pending = Idle | Lookup(dir: Fh, name: string) | Readlink(link: Fh) | Getattr

  /** A fresh buffer for `s`, normalised in place. */
  method NormalizeCopy(s: string) returns (ok: bool, t: string)
    requires NUL !in s
    ensures ok <==> Absolute(s) && Resolve(s).Some?
    ensures ok ==> Spells(t, Resolve(s).value) && NUL !in t
  {
    hide Resolve, Absolute, Spells;
    var a := new char[|s| + 1](i => if 0 <= i < |s| then s[i] else NUL);
    assert a[..][|s|] == NUL;
    assert a[..][..|s|] == s;
    CStringUnique(a[..], s);
    ok := NormalizePath(a);
    var n := 0;
    while n < a.Length && a[n] != NUL
      invariant n <= a.Length && NUL !in a[..n]
    {
      assert a[..n + 1] == a[..n] + [a[n]];
      n := n + 1;
    }
    t := a[..n];
    assert a[..a.Length] == a[..];
    assert a[..][..n] == t;
    CStringUnique(a[..], t);
  }

  class LookupData {
    const sv: Server
    const o: Options
    var saved: string
    var pos: nat
    var linkCount: nat
    var pending: Pending
    /** Every call of `cb` or `continue_cb`. */
    var callbacks: seq<Outcome>
    var readlinks: nat
    ghost var done: seq<string>
    ghost var rest: seq<string>

    constructor (sv: Server, o: Options)
      ensures this.sv == sv && this.o == o && pending == Idle && callbacks == [] && linkCount == 0 && readlinks == 0
    {
      this.sv := sv;
      this.o := o;
      saved, pos, linkCount, pending, callbacks, readlinks := "", 0, 0, Idle, [], 0;
      done, rest := [], [];
    }

    /** One request under way and no callback yet, or the reverse; at most one READLINK per unit of fuel. */
    ghost predicate Valid()
      reads this
    {
      && NUL !in o.exportPath && NUL !in saved
      && (forall fh :: sv.readlink(fh).Text? ==> NUL !in sv.readlink(fh).text)
      && readlinks <= 40 && (!pending.Idle? ==> readlinks == linkCount)
      && (pending.Idle? && callbacks == [Error(ELOOP)] ==> o.refuse || readlinks == 40)
      && (pending.Idle? <==> |callbacks| == 1) && (!pending.Idle? ==> callbacks == [])
      && (!pending.Idle? ==> linkCount <= MAX_LINK_COUNT && At(saved, pos, done, rest))
      && (pending.Lookup? ==> done != [])
    }

    /** What the lookup will report, given the server. */
    ghost function Future(): (r: Outcome)
      requires Valid()
      reads this
    {
      match pending
      case Idle => callbacks[0]
      case Lookup(dir, name) =>
        (match sv.lookup(dir, name)
         case Failed(code) => Error(Remote(code))
         case Found(fh, l) => Follow(sv, o, fh, l, done, rest, linkCount))
      case Readlink(fh) => Restart(sv, o, done, rest, sv.readlink(fh), linkCount)
      case Getattr =>
        (match sv.getattr(sv.root)
         case Failed(code) => Error(Remote(code))
         case Found(_, l) => Follow(sv, o, sv.root, l, done, rest, linkCount))
    }

    /** Links left, with a pending READLINK counted as one that is not yet resolved. */
    ghost function LinksLeft(): (m: nat)
      requires Valid()
      reads this
    {
      if pending.Idle? then 0 else 2 * (MAX_LINK_COUNT - linkCount) + if pending.Readlink? then 2 else 1
    }

    /** One of the two callbacks, once. */
    method Report(out: Outcome)
      requires NUL !in o.exportPath && NUL !in saved && callbacks == [] && readlinks <= 40
      requires out == Error(ELOOP) ==> o.refuse || readlinks == 40
      requires forall fh :: sv.readlink(fh).Text? ==> NUL !in sv.readlink(fh).text
      modifies this`callbacks, this`pending
      ensures Valid() && pending == Idle && callbacks == [out]
    {
      pending := Idle;
      callbacks := callbacks + [out];
      assert callbacks[0] == out;
    }

    /** Skips slashes at the cursor. */
    method SkipSlashes(ghost dn: seq<string>, ghost rs: seq<string>)
      requires pos <= |saved|
      requires At(saved, pos, dn, rs) || (pos == 0 && dn == [] && Names(rs) && Spells(saved, rs))
      modifies this`pos
      ensures At(saved, pos, dn, rs)
    {
      ghost var goal := if At(saved, pos, dn, rs) && rs != [] then pos else if rs == [] then |saved| else 1;
      JoinStart(rs);
      if !At(saved, pos, dn, rs) {
        AtStart(saved, rs);
      } else if rs == [] {
        assert pos == |saved|;
      } else {
        assert saved[pos] == saved[pos..][0];
      }
      assert goal < |saved| ==> saved[goal] == saved[goal..][0];
      while pos < |saved| && saved[pos] == '/'
        invariant pos <= goal <= |saved|
        invariant pos < goal ==> saved[pos] == '/'
        decreases |saved| - pos
      {
        pos := pos + 1;
      }
    }

    /** Index of the next slash, or the end of the path. */
    method StrChr() returns (i: nat)
      requires pos <= |saved|
      ensures pos <= i <= |saved| && '/' !in saved[pos..i] && (i < |saved| ==> saved[i] == '/')
    {
      i := pos;
      while i < |saved| && saved[i] != '/'
        invariant pos <= i <= |saved| && '/' !in saved[pos..i]
      {
        assert saved[pos..i + 1] == saved[pos..i] + [saved[i]];
        i := i + 1;
      }
    }

    /** `nfs3_lookup_path_async_internal`: the next request, or the end. */
    method Internal(fh: Fh, link: bool, ghost dn: seq<string>, ghost rs: seq<string>)
      requires NUL !in o.exportPath && NUL !in saved && callbacks == []
      requires forall fh :: sv.readlink(fh).Text? ==> NUL !in sv.readlink(fh).text
      requires pos <= |saved| && readlinks == linkCount <= MAX_LINK_COUNT
      requires At(saved, pos, dn, rs) || (pos == 0 && dn == [] && Names(rs) && Spells(saved, rs))
      modifies this
      ensures Valid() && saved == old(saved)
      ensures Future() == Follow(sv, o, fh, link, dn, rs, old(linkCount))
      ensures pending.Idle? || linkCount > old(linkCount)
              || (pending.Lookup? && linkCount == old(linkCount) && |rest| < |rs|)
    {
      hide At;
      SkipSlashes(dn, rs);
      done, rest := dn, rs;
      AtEnd(saved, pos, dn, rs);
      var slash := StrChr();
      if link {
        if o.refuse {
          Report(Error(ELOOP));
          return;
        }
        if !o.noFollow || pos < |saved| {
          linkCount := linkCount + 1;
          if linkCount - 1 >= MAX_LINK_COUNT {
            Report(Error(ELOOP));
            return;
          }
          readlinks := readlinks + 1;
          pending := Readlink(fh);
          return;
        }
      }
      var name := saved[pos..slash];
      if name == "" {
        assert slash == |saved|;
        Report(Continue(fh, link));
        return;
      }
      NextName(saved, pos, slash, dn, rs);
      done, rest := dn + [rs[0]], rs[1..];
      pos := if slash < |saved| then slash + 1 else |saved|;
      pending := Lookup(fh, name);
    }

    /** `nfs3_lookup_path_1_cb`. */
    method OnLookup(reply: Reply)
      requires Valid() && pending.Lookup? && reply == sv.lookup(pending.dir, pending.name)
      modifies this
      ensures Valid() && Future() == old(Future())
      ensures LinksLeft() < old(LinksLeft()) || (LinksLeft() == old(LinksLeft()) && |rest| < |old(rest)|)
    {
      hide At;
      match reply
      case Failed(code) => Report(Error(Remote(code)));
      case Found(fh, link) =>
        AtEnd(saved, pos, done, rest);
        Internal(fh, link, done, rest);
    }

    /** `nfs3_lookup_path_getattr_cb`. */
    method OnGetattr(reply: Reply)
      requires Valid() && pending.Getattr? && reply == sv.getattr(sv.root)
      modifies this
      ensures Valid() && Future() == old(Future())
      ensures LinksLeft() < old(LinksLeft()) || (LinksLeft() == old(LinksLeft()) && |rest| < |old(rest)|)
    {
      hide At;
      match reply
      case Failed(code) => Report(Error(Remote(code)));
      case Found(_, link) =>
        AtEnd(saved, pos, done, rest);
        Internal(sv.root, link, done, rest);
    }

    /** The path to walk after a link, before it is normalised. */
    method NewPath(text: string) returns (ok: bool, path: string)
      requires Valid() && pending.Readlink? && NUL !in text
      ensures NUL !in path
      ensures ok ==> Absolute(path) && Resolve(path) == Target(o.exportPath, done, rest, text)
      ensures !ok ==> Target(o.exportPath, done, rest, text) == None
    {
      hide Resolve, Target, Render, Join, Names;
      if text != "" && text[0] == '/' {
        AbsoluteTarget(o.exportPath, done, rest, text);
        var e := o.exportPath;
        if |e| <= |text| && text[0..0 + |e|] == e {
          if |e| == |text| {
            return true, "/";
          } else if text[|e|] == '/' {
            return true, text[|e|..];
          }
        }
        return false, "";
      }
      RelativeTarget(o.exportPath, done, rest, text);
      AtParts(saved, pos, done, rest);
      if pos < |saved| {
        path := saved[..pos - 1] + "/../" + text + "/" + saved[pos..];
        Regroup(saved[..pos - 1] + "/../" + text, "/", saved[pos..]);
      } else {
        path := saved + "/../" + text;
        if saved == Render(done) {
          Regroup(path, "", "");
        } else {
          AboveRoot(text);
          assert Target(o.exportPath, done, rest, text) == None by { TargetAtRoot(o.exportPath, rest, text); }
        }
      }
      ok := true;
    }

    /** `nfs3_lookup_path_2_cb`. */
    method OnReadlink(reply: LinkReply)
      requires Valid() && pending.Readlink? && reply == sv.readlink(pending.link)
      modifies this
      ensures Valid() && Future() == old(Future())
      ensures LinksLeft() < old(LinksLeft())
    {
      hide At, Resolve, Target, Absolute, Spells, Names;
      match reply
      case LinkFailed(code) => Report(Error(Remote(code)));
      case Text(text) =>
        var ok, path := NewPath(text);
        if !ok {
          Report(Error(ENOENT));
          return;
        }
        var fine, normal := NormalizeCopy(path);
        if !fine {
          Report(Error(ENOENT));
          return;
        }
        NamesOf(path);
        saved := normal;
        pos := 0;
        Internal(sv.root, false, [], Resolve(path).value) by { NoNames(); }
    }

    /** `nfs3_lookuppath_async` without nested mounts. */
    method Start(path: string) returns (ok: bool)
      requires callbacks == [] && linkCount == 0 && readlinks == 0
      requires NUL !in path && NUL !in o.cwd && NUL !in o.exportPath
      requires forall fh :: sv.readlink(fh).Text? ==> NUL !in sv.readlink(fh).text
      modifies this
      ensures ok <==> Absolute(FullPath(o, path)) && Resolve(FullPath(o, path)).Some?
      ensures !ok ==> callbacks == [] && pending == old(pending) && readlinks == 0
      ensures ok ==> Valid() && Future() == Find(sv, o, Resolve(FullPath(o, path)).value, saved == "")
      ensures ok && saved == "" ==> Resolve(FullPath(o, path)).value == []
      ensures Starts(o, path, ok, if ok then Resolve(FullPath(o, path)).value else [])
    {
      StartsFrom(o, path);
      hide At, Resolve, Absolute, Names;
      var p := if path == "" then "." else path;
      var full := if p[0] == '/' then p else o.cwd + "/" + p;
      assert full == FullPath(o, path);
      var t;
      ok, t := NormalizeCopy(full);
      if !ok {
        return;
      }
      NamesOf(full);
      ghost var stack := Resolve(full).value;
      AtStart(t, stack);
      saved, pos := t, 0;
      if saved != "" {
        Internal(sv.root, false, [], stack) by { NoNames(); }
      } else {
        pending := Getattr;
        done, rest := [], stack;
      }
    }

    /** The server answers until nothing is pending. */
    method Serve()
      requires Valid()
      modifies this
      ensures Valid() && pending == Idle && callbacks == [old(Future())]
    {
      ghost var goal := Future();
      while pending != Idle
        invariant Valid() && Future() == goal
        decreases LinksLeft(), |rest|
      {
        match pending
        case Lookup(dir, name) => OnLookup(sv.lookup(dir, name));
        case Readlink(fh) => OnReadlink(sv.readlink(fh));
        case Getattr => OnGetattr(sv.getattr(sv.root));
      }
    }
  }

  /** A started lookup makes one callback, the resolver's outcome, after at most 40 READLINKs. */
  method LookupPath(sv: Server, o: Options, path: string)
    returns (ok: bool, asked: bool, callbacks: seq<Outcome>, readlinks: nat)
    requires NUL !in path && NUL !in o.cwd && NUL !in o.exportPath
    requires forall fh :: sv.readlink(fh).Text? ==> NUL !in sv.readlink(fh).text
    ensures ok <==> Absolute(FullPath(o, path)) && Resolve(FullPath(o, path)).Some?
    ensures !ok ==> callbacks == []
    ensures ok ==> callbacks == [Find(sv, o, Resolve(FullPath(o, path)).value, asked)]
    ensures ok && asked ==> Resolve(FullPath(o, path)).value == []
    ensures path != "" && path[0] == '/' ==>
              (ok <==> Resolve(path).Some?) && (ok ==> callbacks == [Find(sv, o, Resolve(path).value, asked)])
    ensures path == "" || path[0] != '/' ==>
              (ok <==> (o.cwd == "" || o.cwd[0] == '/') && Resolve(o.cwd).Some?
                       && Walk(Resolve(o.cwd).value, Split(path)).Some?)
    ensures (path == "" || path[0] != '/') && ok ==>
              callbacks == [Find(sv, o, Walk(Resolve(o.cwd).value, Split(path)).value, asked)]
    ensures path == "" && ok ==> callbacks == [Find(sv, o, Resolve(o.cwd).value, asked)]
    ensures readlinks <= 40 && (callbacks == [Error(ELOOP)] ==> o.refuse || readlinks == 40)
  {
    StartsFrom(o, path);
    hide FullPath, Resolve, Walk, Split;
    var d := new LookupData(sv, o);
    asked := false;
    ok := d.Start(path);
    if ok {
      asked := d.saved == "";
      d.Serve();
    }
    callbacks, readlinks := d.callbacks, d.readlinks;
  }

  /** `ok` says whether a lookup starts and `stack` what it looks up: an absolute path as it resolves, any
      other from where the working directory resolves. */
  predicate Starts(o: Options, path: string, ok: bool, stack: seq<string>)
  {
    if path != "" && path[0] == '/' then
      ok == Resolve(path).Some? && (ok ==> stack == Resolve(path).value)
    else
      && ok == ((o.cwd == "" || o.cwd[0] == '/') && Resolve(o.cwd).Some?
                && Walk(Resolve(o.cwd).value, Split(path)).Some?)
      && (ok ==> stack == Walk(Resolve(o.cwd).value, Split(path)).value)
  }

  lemma StartsFrom(o: Options, path: string)
    ensures var full := FullPath(o, path);
            var ok := Absolute(full) && Resolve(full).Some?;
            Starts(o, path, ok, if ok then Resolve(full).value else [])
    ensures Resolve(o.cwd).Some? ==> Walk(Resolve(o.cwd).value, Split("")) == Resolve(o.cwd)
  {
    hide Resolve, Split, Walk;
    SplitPlain("");
    SplitPlain(".");
    if Resolve(o.cwd).Some? {
      WalkOne(Resolve(o.cwd).value, "");
      WalkOne(Resolve(o.cwd).value, ".");
    }
    if path == "" || path[0] != '/' {
      var p := if path == "" then "." else path;
      ResolveThen(o.cwd, p);
      assert (o.cwd + "/" + p)[0] == if o.cwd == "" then '/' else o.cwd[0];
    }
  }

  /** A link into the export is resolved behind it: the export itself is the root. */
  lemma LinkIntoExport(e: string, r: string, done: seq<string>, rest: seq<string>)
    requires Absolute(e + r) && (r == "" || r[0] == '/')
    ensures Target(e, done, rest, e + r) == Resolve(r)
  {
    hide Resolve;
    assert (e + r)[0..0 + |e|] == e && (e + r)[|e|..] == r;
  }

  /** An absolute link that is not the export, followed by nothing or a slash, leads nowhere. */
  lemma LinkOutsideExport(e: string, text: string, done: seq<string>, rest: seq<string>)
    requires Absolute(text)
    requires |text| < |e| || text[..|e|] != e || (|text| > |e| && text[|e|] != '/')
    ensures Target(e, done, rest, text) == None
  {
    if |text| >= |e| {
      assert text[0..0 + |e|] == text[..|e|];
    }
  }

  lemma Regroup(a: string, b: string, c: string)
    ensures a + b + c == a + (b + c) && a + "" == a
  {
  }

  lemma NoNames()
    ensures Names([])
  {
  }

  lemma TargetAtRoot(e: string, rest: seq<string>, text: string)
    requires !Absolute(text)
    ensures Target(e, [], rest, text) == None
  {
  }

  lemma AboveRoot(text: string)
    ensures Resolve("/" + "/../" + text) == None && Absolute("/" + "/../" + text)
  {
    hide Split, Walk, Resolve;
    ResolveNothing();
    ResolveSnoc("", "");
    WalkOne([], "");
    ResolveSnoc("" + "/" + "", "..");
    WalkOne([], "..");
    NoReturn(("" + "/" + "") + "/" + "..", text);
    assert "/" + "/../" + text == ("" + "/" + "") + "/" + ".." + "/" + text;
  }

  /** The two halves of the saved path around the cursor. */
  lemma AtParts(saved: string, pos: nat, done: seq<string>, rest: seq<string>)
    requires At(saved, pos, done, rest)
    ensures Names(done) && Names(rest) && (pos < |saved| <==> rest != [])
    ensures rest != [] ==> 1 <= pos <= |saved| && saved[..pos - 1] == Render(done) && saved[pos..] == Join(rest)
    ensures rest == [] ==> saved == Render(done) || (done == [] && saved == "/")
  {
    hide Names, Render, Join;
    AtEnd(saved, pos, done, rest);
    assert saved[..|saved|] == saved;
    assert rest != [] ==> saved[..pos][..|saved[..pos]| - 1] == Render(done);
  }

  /** The next name is what stands before the next slash. */
  lemma NextName(saved: string, pos: nat, slash: nat, done: seq<string>, rest: seq<string>)
    requires At(saved, pos, done, rest) && rest != []
    requires pos <= slash <= |saved| && '/' !in saved[pos..slash] && (slash < |saved| ==> saved[slash] == '/')
    ensures saved[pos..slash] == rest[0]
    ensures At(saved, if slash < |saved| then slash + 1 else |saved|, done + [rest[0]], rest[1..])
  {
    hide At, Names, Render, Join;
    AtNext(saved, pos, done, rest);
    var n := pos + |rest[0]|;
    assert forall i | pos <= i < n :: saved[i] == saved[pos..n][i - pos] && saved[i] in rest[0];
    assert forall i | pos <= i < slash :: saved[i] == saved[pos..slash][i - pos] && saved[i] in saved[pos..slash];
    assert slash == n;
    if |rest| == 1 {
      assert rest[1..] == [];
    }
  }

  lemma AtEnd(saved: string, pos: nat, done: seq<string>, rest: seq<string>)
    requires At(saved, pos, done, rest)
    ensures pos <= |saved| && (pos == |saved| <==> rest == [])
    ensures pos < |saved| ==> saved[pos] != '/'
  {
    JoinStart(rest);
    assert pos < |saved| ==> saved[pos] == saved[pos..][0];
  }
}
