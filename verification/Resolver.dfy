/** What a path lookup over NFSv3 arrives at: a resolver on components, with bounded link fuel. */
module Resolver {
  import opened Bytes
  import opened Paths

  type Fh = seq<byte>

  const MAX_LINK_COUNT: nat := 40

  datatype Errno = ENOENT | ELOOP | Remote(code: int)

  /** `link` is set when the reply carries attributes and they say NF3LNK. */
  datatype Reply = Failed(code: int) | Found(fh: Fh, link: bool)

  datatype LinkReply = LinkFailed(code: int) | Text(text: string)

  /** A server whose tree does not change. */
  datatype Server = Server(
    root: Fh,
    lookup: (Fh, string) -> Reply,
    readlink: Fh -> LinkReply,
    getattr: Fh -> Reply)

  /** `noFollow` keeps a final link, `refuse` (O_NOFOLLOW) fails on any link. */
  datatype Options = Options(noFollow: bool, refuse: bool, exportPath: string, cwd: string)

  datatype Outcome = Error(error: Errno) | Continue(fh: Fh, link: bool)

  predicate InsideExport(text: string, exportPath: string)
  {
    Occurs(text, exportPath, 0) && (|text| == |exportPath| || text[|exportPath|] == '/')
  }

  /** The components a link leads to, seen from the root. An absolute link replaces the whole path. */
  function Target(exportPath: string, done: seq<string>, rest: seq<string>, text: string): (r: Option<seq<string>>)
  {
    if Absolute(text) then
      if InsideExport(text, exportPath) then Resolve(text[|exportPath|..]) else None
    else if done == [] then None
    else Walk(done[..|done| - 1], Split(text) + rest)
  }

  /** From handle `fh`, reached by `done`, on to `rest`. */
  function Follow(sv: Server, o: Options, fh: Fh, link: bool, done: seq<string>, rest: seq<string>,
                  links: nat): (r: Outcome)
    requires links <= MAX_LINK_COUNT
    decreases MAX_LINK_COUNT - links, |rest|
  {
    if link && o.refuse then Error(ELOOP)
    else if link && (!o.noFollow || rest != []) then
      if links >= MAX_LINK_COUNT then Error(ELOOP)
      else Restart(sv, o, done, rest, sv.readlink(fh), links + 1)
    else if rest == [] then Continue(fh, link)
    else
      match sv.lookup(fh, rest[0])
      case Failed(code) => Error(Remote(code))
      case Found(next, l) => Follow(sv, o, next, l, done + [rest[0]], rest[1..], links)
  }

  /** The walk starts again at the root with the link's text worked in. */
  function Restart(sv: Server, o: Options, done: seq<string>, rest: seq<string>, reply: LinkReply,
                   links: nat): (r: Outcome)
    requires links <= MAX_LINK_COUNT
    decreases MAX_LINK_COUNT - links, |rest| + 1 + ReplySize(o.exportPath, done, rest, reply)
  {
    match reply
    case LinkFailed(code) => Error(Remote(code))
    case Text(t) =>
      match Target(o.exportPath, done, rest, t)
      case None => Error(ENOENT)
      case Some(cs) => Follow(sv, o, sv.root, false, [], cs, links)
  }

  /** How many components a link's reply leads to. */
  function ReplySize(exportPath: string, done: seq<string>, rest: seq<string>, reply: LinkReply): (n: nat)
  {
    if reply.LinkFailed? then 0
    else
      match Target(exportPath, done, rest, reply.text)
      case None => 0
      case Some(cs) => |cs|
  }

  /** The path a caller gave, made absolute. */
  function FullPath(o: Options, path: string): (s: string)
  {
    var p := if path == "" then "." else path;
    if p[0] == '/' then p else o.cwd + "/" + p
  }

  /** The whole lookup. `rootAsked` says that the root's attributes are fetched first. */
  function Find(sv: Server, o: Options, stack: seq<string>, rootAsked: bool): (r: Outcome)
  {
    if rootAsked then
      match sv.getattr(sv.root)
      case Failed(code) => Error(Remote(code))
      case Found(_, l) => Follow(sv, o, sv.root, l, [], stack, 0)
    else
      Follow(sv, o, sv.root, false, [], stack, 0)
  }

  // ---------------------------------------------------------------- what the resolver promises

  /** Plain LOOKUPs down a list of names; links are not followed. */
  function Descend(sv: Server, fh: Fh, names: seq<string>): (r: Option<Fh>)
    decreases |names|
  {
    if names == [] then Some(fh)
    else
      match sv.lookup(fh, names[0])
      case Failed(_) => None
      case Found(next, _) => Descend(sv, next, names[1..])
  }

  lemma {:induction false} DescendSnoc(sv: Server, fh: Fh, names: seq<string>, x: string)
    requires Descend(sv, fh, names).Some?
    ensures Descend(sv, fh, names + [x]) ==
            match sv.lookup(Descend(sv, fh, names).value, x) { case Failed(_) => None case Found(n, _) => Some(n) }
    decreases |names|
  {
    if names == [] {
      assert (names + [x])[1..] == [];
    } else {
      assert (names + [x])[1..] == names[1..] + [x];
      DescendSnoc(sv, sv.lookup(fh, names[0]).fh, names[1..], x);
    }
  }

  /** A handle that the lookup hands over is reached from the root by LOOKUPs alone, and is no followed link. */
  lemma {:induction false} FollowReaches(sv: Server, o: Options, fh: Fh, link: bool, done: seq<string>,
                                         rest: seq<string>, links: nat)
    returns (names: seq<string>)
    requires links <= MAX_LINK_COUNT && Descend(sv, sv.root, done) == Some(fh)
    ensures var r := Follow(sv, o, fh, link, done, rest, links);
            r.Continue? ==> Descend(sv, sv.root, names) == Some(r.fh) && (r.link ==> o.noFollow && !o.refuse)
    decreases MAX_LINK_COUNT - links, |rest|
  {
    names := done;
    if link && o.refuse {
    } else if link && (!o.noFollow || rest != []) {
      if links < MAX_LINK_COUNT && sv.readlink(fh).Text? {
        var t := Target(o.exportPath, done, rest, sv.readlink(fh).text);
        if t.Some? {
          names := FollowReaches(sv, o, sv.root, false, [], t.value, links + 1);
        }
      }
    } else if rest != [] && sv.lookup(fh, rest[0]).Found? {
      DescendSnoc(sv, sv.root, done, rest[0]);
      var next := sv.lookup(fh, rest[0]);
      names := FollowReaches(sv, o, next.fh, next.link, done + [rest[0]], rest[1..], links);
    }
  }

  /** With O_NOFOLLOW a lookup succeeds if and only if it meets no link. */
  lemma {:induction false} FollowRefused(sv: Server, o: Options, fh: Fh, done: seq<string>, rest: seq<string>,
                                         links: nat)
    requires links <= MAX_LINK_COUNT && o.refuse
    ensures Follow(sv, o, fh, false, done, rest, links).Continue? <==> LinkFree(sv, fh, rest)
    decreases |rest|
  {
    if rest != [] && sv.lookup(fh, rest[0]).Found? && !sv.lookup(fh, rest[0]).link {
      FollowRefused(sv, o, sv.lookup(fh, rest[0]).fh, done + [rest[0]], rest[1..], links);
    }
  }

  /** A final link is handed over as it is exactly when the caller asked for that. */
  lemma FinalLink(sv: Server, o: Options, fh: Fh, done: seq<string>, links: nat)
    requires links <= MAX_LINK_COUNT && !o.refuse
    ensures o.noFollow ==> Follow(sv, o, fh, true, done, [], links) == Continue(fh, true)
    ensures !o.noFollow && links >= 40 ==> Follow(sv, o, fh, true, done, [], links) == Error(ELOOP)
    ensures !o.noFollow && links < 40 ==>
              Follow(sv, o, fh, true, done, [], links) == Restart(sv, o, done, [], sv.readlink(fh), links + 1)
  {
  }

  /** No link on the way from `fh` down `rest`. */
  predicate LinkFree(sv: Server, fh: Fh, rest: seq<string>)
    decreases |rest|
  {
    rest == [] || (var r := sv.lookup(fh, rest[0]); r.Found? && !r.link && LinkFree(sv, r.fh, rest[1..]))
  }

  /** Without links the lookup is the plain descent. */
  lemma {:induction false} FollowLinkFree(sv: Server, o: Options, fh: Fh, done: seq<string>, rest: seq<string>,
                                          links: nat)
    requires links <= MAX_LINK_COUNT && LinkFree(sv, fh, rest)
    ensures Descend(sv, fh, rest).Some?
    ensures Follow(sv, o, fh, false, done, rest, links) == Continue(Descend(sv, fh, rest).value, false)
    decreases |rest|
  {
    if rest != [] {
      FollowLinkFree(sv, o, sv.lookup(fh, rest[0]).fh, done + [rest[0]], rest[1..], links);
    }
  }

  // ---------------------------------------------------------------- absolute links in the middle of a path

  /** What the rest of the path would ask for: it is looked up below the link's target. */
  function FullTarget(exportPath: string, done: seq<string>, rest: seq<string>, text: string): (r: Option<seq<string>>)
  {
    var t := Target(exportPath, done, [], text);
    if t.None? then None else Walk(t.value, rest)
  }

  lemma {:induction false} WalkPushes(stack: seq<string>, names: seq<string>)
    requires forall x :: x in names ==> Plain(x)
    ensures Walk(stack, names) == Some(stack + names)
    decreases |names|
  {
    if names == [] {
      assert stack + names == stack;
    } else {
      assert names[0] in names;
      WalkPushes(stack + [names[0]], names[1..]);
      assert stack + [names[0]] + names[1..] == stack + names;
    }
  }

  /** A link's target is right exactly when the link is relative, leads nowhere, or is the last component. */
  lemma TargetKeepsRestIff(exportPath: string, done: seq<string>, rest: seq<string>, text: string)
    requires forall x :: x in rest ==> Plain(x)
    ensures Target(exportPath, done, rest, text) == FullTarget(exportPath, done, rest, text)
       <==> (!Absolute(text) || Target(exportPath, done, rest, text).None? || rest == [])
  {
    hide Split, Walk, Resolve;
    if Absolute(text) {
      var t := Target(exportPath, done, rest, text);
      if t.Some? {
        WalkPushes(t.value, rest);
        assert |t.value + rest| == |t.value| + |rest|;
        assert rest == [] ==> t.value + rest == t.value;
      }
    } else if done != [] {
      WalkAppend(done[..|done| - 1], Split(text), rest);
      WalkAppend(done[..|done| - 1], Split(text), []);
      assert Split(text) + [] == Split(text);
    }
  }

  /** The lookup with every target kept whole. */
  function Reference(sv: Server, o: Options, fh: Fh, link: bool, done: seq<string>, rest: seq<string>,
                     links: nat): (r: Outcome)
    requires links <= MAX_LINK_COUNT
    decreases MAX_LINK_COUNT - links, |rest|
  {
    if link && o.refuse then Error(ELOOP)
    else if link && (!o.noFollow || rest != []) then
      if links >= MAX_LINK_COUNT then Error(ELOOP)
      else
        match sv.readlink(fh)
        case LinkFailed(code) => Error(Remote(code))
        case Text(t) =>
          (match FullTarget(o.exportPath, done, rest, t)
           case None => Error(ENOENT)
           case Some(cs) => Reference(sv, o, sv.root, false, [], cs, links + 1))
    else if rest == [] then Continue(fh, link)
    else
      match sv.lookup(fh, rest[0])
      case Failed(code) => Error(Remote(code))
      case Found(next, l) => Reference(sv, o, next, l, done + [rest[0]], rest[1..], links)
  }

  /** No absolute link that leads somewhere is met before the last component. */
  predicate NoInnerAbsoluteLink(sv: Server, o: Options, fh: Fh, link: bool, done: seq<string>, rest: seq<string>,
                                links: nat)
    requires links <= MAX_LINK_COUNT
    decreases MAX_LINK_COUNT - links, |rest|
  {
    if link && o.refuse then true
    else if link && (!o.noFollow || rest != []) then
      links < MAX_LINK_COUNT && sv.readlink(fh).Text? ==>
        var t := sv.readlink(fh).text;
        var cs := Target(o.exportPath, done, rest, t);
        && (Absolute(t) && cs.Some? ==> rest == [])
        && (cs.Some? ==> NoInnerAbsoluteLink(sv, o, sv.root, false, [], cs.value, links + 1))
    else
      rest != [] && sv.lookup(fh, rest[0]).Found? ==>
        var r := sv.lookup(fh, rest[0]);
        NoInnerAbsoluteLink(sv, o, r.fh, r.link, done + [rest[0]], rest[1..], links)
  }

  ghost predicate Names(cs: seq<string>)
  {
    forall x :: x in cs ==> Plain(x)
  }

  lemma TargetNames(exportPath: string, done: seq<string>, rest: seq<string>, text: string)
    requires Names(done) && Names(rest) && Target(exportPath, done, rest, text).Some?
    ensures Names(Target(exportPath, done, rest, text).value)
  {
    hide Split, Walk;
    if Absolute(text) {
      SplitSlashFree(text[|exportPath|..]);
      WalkPlain([], Split(text[|exportPath|..]));
    } else {
      SplitSlashFree(text);
      assert forall x :: x in done[..|done| - 1] ==> x in done;
      WalkPlain(done[..|done| - 1], Split(text) + rest);
    }
  }

  /** Then the lookup is the reference lookup. */
  lemma {:induction false} FollowIsReference(sv: Server, o: Options, fh: Fh, link: bool, done: seq<string>,
                                             rest: seq<string>, links: nat)
    requires links <= MAX_LINK_COUNT && Names(done) && Names(rest)
    requires NoInnerAbsoluteLink(sv, o, fh, link, done, rest, links)
    ensures Follow(sv, o, fh, link, done, rest, links) == Reference(sv, o, fh, link, done, rest, links)
    decreases MAX_LINK_COUNT - links, |rest|
  {
    hide Target, FullTarget;
    if link && o.refuse {
    } else if link && (!o.noFollow || rest != []) {
      if links < MAX_LINK_COUNT && sv.readlink(fh).Text? {
        var t := sv.readlink(fh).text;
        TargetKeepsRestIff(o.exportPath, done, rest, t);
        var cs := Target(o.exportPath, done, rest, t);
        if cs.Some? {
          TargetNames(o.exportPath, done, rest, t);
          FollowIsReference(sv, o, sv.root, false, [], cs.value, links + 1);
        }
      }
    } else if rest != [] && sv.lookup(fh, rest[0]).Found? {
      var r := sv.lookup(fh, rest[0]);
      FollowIsReference(sv, o, r.fh, r.link, done + [rest[0]], rest[1..], links);
    }
  }

  // ---------------------------------------------------------------- an absolute link that swallows a name

  function DemoLookup(fh: Fh, name: string): (r: Reply)
  {
    if fh == [0] && name == "l" then Found([1], true)
    else if fh == [0] && name == "d" then Found([2], false)
    else if fh == [2] && name == "x" then Found([3], false)
    else Failed(-2)
  }

  /** The root holds a link "l" to "/e/d" and a directory "d" with a file "x"; "/e" is exported. */
  function DemoServer(): (sv: Server)
  {
    Server([0], DemoLookup, (fh: Fh) => Text("/e/d"), (fh: Fh) => Found(fh, false))
  }

  function DemoOptions(): (o: Options)
  {
    Options(false, false, "/e", "")
  }

  lemma DemoTarget(rest: seq<string>)
    ensures Target("/e", ["l"], rest, "/e/d") == Some(["d"])
  {
    assert "/e/d"[|"/e"|..] == "" + "/" + "d";
    hide Split, Walk, Resolve;
    ResolveNothing();
    ResolveSnoc("", "d");
    WalkOne([], "d");
    assert Occurs("/e/d", "/e", 0);
    assert [] + ["d"] == ["d"];
  }

  /** Looking up "/l/x" ends at the directory "d" instead of the file "x" in it. */
  lemma InnerAbsoluteLinkLosesRest()
    ensures Find(DemoServer(), DemoOptions(), ["l", "x"], false) == Continue([2], false)
    ensures Reference(DemoServer(), DemoOptions(), [0], false, [], ["l", "x"], 0) == Continue([3], false)
  {
    hide Target, Walk;
    var sv, o := DemoServer(), DemoOptions();
    DemoTarget(["x"]);
    DemoTarget([]);
    assert FullTarget("/e", ["l"], ["x"], "/e/d") == Some(["d", "x"]) by {
      WalkPushes(["d"], ["x"]);
      assert ["d"] + ["x"] == ["d", "x"];
    }
    assert [] + ["l"] == ["l"] && ["l", "x"][1..] == ["x"];
    assert ["d", "x"][1..] == ["x"] && ["x"][1..] == [] && ["d"][1..] == [];
    assert Follow(sv, o, [2], false, ["d"], [], 1) == Continue([2], false);
    assert Follow(sv, o, [0], false, [], ["d"], 1) == Continue([2], false);
    assert Follow(sv, o, [1], true, ["l"], ["x"], 0) == Continue([2], false);
    assert Reference(sv, o, [3], false, ["d", "x"], [], 1) == Continue([3], false);
    assert Reference(sv, o, [2], false, ["d"], ["x"], 1) == Continue([3], false);
    assert Reference(sv, o, [0], false, [], ["d", "x"], 1) == Continue([3], false);
    assert Reference(sv, o, [1], true, ["l"], ["x"], 0) == Continue([3], false);
  }
}
