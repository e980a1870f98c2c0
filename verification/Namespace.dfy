/**
 Path parsing and lookup (kern/io/namespace.c).

 A path is a C string: the characters before the terminating zero. The name buffer is an array of NAME_MAX
 characters that namespace_deescape_path writes into.
 */
module Namespace {
  import opened Common

  const NAME_MAX: nat := 32

  predicate CString(s: string) {
    forall i :: 0 <= i < |s| ==> s[i] != '\0'
  }

  /** The character a pointer at offset i sees. */
  function At(s: string, i: nat): char
    requires i <= |s|
  {
    if i < |s| then s[i] else '\0'
  }

  // ----- Path components as values -----

  /** One component: its name, what follows, and whether a slash ended it. */
  datatype Component = LoneBackslash | Component(name: string, rest: string, slash: bool)

  function Prepend(c: char, p: Component): Component {
    match p
    case LoneBackslash => LoneBackslash
    case Component(name, rest, slash) => Component([c] + name, rest, slash)
  }

  function Deescaped(p: string): Component {
    if p == "" then Component("", "", false)
    else if p[0] == '\\' then if |p| == 1 then LoneBackslash else Prepend(p[1], Deescaped(p[2..]))
    else if p[0] == '/' then Component("", p[1..], true)
    else Prepend(p[0], Deescaped(p[1..]))
  }

  /**
   Does the component fit the buffer? Behind a slash the name may use all but one character; at the end of
   the path the check comes after the terminating zero has been stored, so one character less.
   */
  predicate Fits(p: Component) {
    p.Component? && |p.name| + (if p.slash then 0 else 1) < NAME_MAX
  }

  function SkipSlashes(p: string): string {
    if p != "" && p[0] == '/' then SkipSlashes(p[1..]) else p
  }

  lemma {:induction false} RestIsShorter(p: string)
    ensures p != "" && Deescaped(p).Component? ==> |Deescaped(p).rest| < |p|
    ensures Deescaped(p).Component? ==> |Deescaped(p).rest| <= |p|
  {
    if p != "" && p[0] == '\\' && |p| > 1 { RestIsShorter(p[2..]); }
    else if p != "" && p[0] != '\\' && p[0] != '/' { RestIsShorter(p[1..]); }
  }

  lemma {:induction false} SkipIsShorter(p: string)
    ensures |SkipSlashes(p)| <= |p|
    ensures SkipSlashes(p) != "" ==> SkipSlashes(p)[0] != '/'
  {
    if p != "" && p[0] == '/' { SkipIsShorter(p[1..]); }
  }

  // ----- namespace_deescape_path -----

  lemma StepAt(p: string, i: nat)
    requires i < |p|
    ensures Deescaped(p[i..]) ==
      if p[i] == '\\' then if i + 1 == |p| then LoneBackslash else Prepend(p[i + 1], Deescaped(p[i + 2..]))
      else if p[i] == '/' then Component("", p[i + 1..], true)
      else Prepend(p[i], Deescaped(p[i + 1..]))
  {
    var q := p[i..];
    assert q[1..] == p[i + 1..] && (|q| > 1 ==> q[2..] == p[i + 2..]);
  }

  /** What has been copied so far in front of what is still to be read. */
  function PrependAll(s: string, p: Component): Component {
    match p
    case LoneBackslash => LoneBackslash
    case Component(name, rest, slash) => Component(s + name, rest, slash)
  }

  lemma PrependOne(s: string, c: char, p: Component)
    ensures PrependAll(s, Prepend(c, p)) == PrependAll(s + [c], p)
  {
    if p.Component? { assert s + ([c] + p.name) == (s + [c]) + p.name; }
  }

  /**
   De-escape the component at offset from into the buffer; next is where the following one starts. It
   succeeds exactly for a component that fits, and never writes outside the buffer.
   */
  method DeescapePath(to: array<char>, path: string, from: nat) returns (err: Error, next: nat)
    requires to.Length == NAME_MAX && CString(path) && from <= |path|
    modifies to
    ensures err == (if Fits(Deescaped(path[from..])) then ENONE else EINVAL)
    ensures err == ENONE ==>
      var c := Deescaped(path[from..]);
      next <= |path| && c.rest == path[next..] && to[..|c.name|] == c.name && to[|c.name|] == '\0' && CString(c.name)
  {
    var p, i := from, 0;
    ghost var goal, done := Deescaped(path[from..]), "";
    assert PrependAll("", goal) == goal;
    while true
      invariant p <= |path| && 0 <= i < NAME_MAX && to[..i] == done && CString(done)
      invariant PrependAll(done, Deescaped(path[p..])) == goal
      decreases |path| - p
    {
      var c := At(path, p);
      if c == '\\' {
        StepAt(path, p);
        if At(path, p + 1) == '\0' { return EINVAL, from; }
        PrependOne(done, path[p + 1], Deescaped(path[p + 2..]));
        done := done + [path[p + 1]];
        PutChar(to, i, path[p + 1]);
        i, p := i + 1, p + 2;
        if i == NAME_MAX { return EINVAL, from; }
      } else if c == '/' {
        StepAt(path, p);
        assert goal == Component(done, path[p + 1..], true);
        PutChar(to, i, '\0');
        return ENONE, p + 1;
      } else {
        PutChar(to, i, c);
        if c == '\0' {
          assert path[p..] == "" && goal == Component(done, "", false);
          if i + 1 == NAME_MAX { return EINVAL, from; }
          return ENONE, p;
        }
        StepAt(path, p);
        PrependOne(done, c, Deescaped(path[p + 1..]));
        done := done + [c];
        i, p := i + 1, p + 1;
        if i == NAME_MAX { return EINVAL, from; }
      }
    }
  }

  method PutChar(to: array<char>, i: nat, c: char)
    requires i < to.Length
    modifies to
    ensures to[i] == c && to[..i] == old(to[..i]) && to[..i + 1] == old(to[..i]) + [c]
  {
    to[i] := c;
  }

  // ----- Lookup -----

  type Obj = nat

  /** An entry in memory; its object need not be there yet. */
  datatype Dirent = Dirent(name: string, obj: Option<Obj>)

  /** An object's entries in memory and its driver's lookup, if any, which answers these names and finds no others. */
  datatype Directory = Directory(dirents: seq<Dirent>, hasLookup: bool, driver: map<string, Found>)

  type Tree = map<Obj, Directory>

  /** What a lookup leaves behind: an error code and *retobj. */
  datatype Found = Found(err: Error, obj: Option<Obj>)

  /** Entry i is the first with that name. */
  predicate FirstNamed(ds: seq<Dirent>, name: string, i: int) {
    0 <= i < |ds| && ds[i].name == name && forall j :: 0 <= j < i ==> ds[j].name != name
  }

  predicate NoneNamed(ds: seq<Dirent>, name: string) {
    forall j :: 0 <= j < |ds| ==> ds[j].name != name
  }

  /** namespace_directory_scan */
  method DirectoryScan(ds: seq<Dirent>, name: string) returns (r: Found)
    ensures forall i :: FirstNamed(ds, name, i) ==> r == Found(ENONE, ds[i].obj)
    ensures NoneNamed(ds, name) ==> r == Found(ENOTFOUND, None)
    ensures r == Scanned(ds, name)
  {
    var i := 0;
    while i < |ds|
      invariant 0 <= i <= |ds| && Scanned(ds[i..], name) == Scanned(ds, name)
      invariant forall j :: 0 <= j < i ==> ds[j].name != name
    {
      if ds[i].name == name { return Found(ENONE, ds[i].obj); }
      assert ds[i..][1..] == ds[i + 1..];
      i := i + 1;
    }
    return Found(ENOTFOUND, None);
  }

  /** What the scan leaves behind. */
  function Scanned(ds: seq<Dirent>, name: string): Found {
    if ds == [] then Found(ENOTFOUND, None)
    else if ds[0].name == name then Found(ENONE, ds[0].obj)
    else Scanned(ds[1..], name)
  }

  function DirectoryOf(t: Tree, dir: Obj): Directory {
    if dir in t then t[dir] else Directory([], false, map[])
  }

  /** The object a name stands for: entries in memory come first, then the driver is asked. */
  function Lookup(t: Tree, dir: Obj, name: string): Found {
    var d := DirectoryOf(t, dir);
    var s := Scanned(d.dirents, name);
    if s.obj.Some? then s
    else if !d.hasLookup then Found(if s.err == ENONE then ENOTSUP else s.err, None)
    else if name in d.driver then Answered(d.driver[name])
    else Found(ENOTFOUND, None)
  }

  /** Success without an object counts as not found; errors of the driver are passed on. */
  function Answered(r: Found): (a: Found)
    ensures a.err == ENONE ==> a.obj.Some?
  {
    if r.err == ENONE && r.obj.None? then Found(ENOTFOUND, None) else r
  }

  /**
   What a directory answers to a name: the object of the first entry of that name; if there is none, or it has no
   object yet, what the driver says, where success without an object is ENOTFOUND.
   */
  ghost predicate Answers(d: Directory, name: string, r: Found) {
    && (forall i :: FirstNamed(d.dirents, name, i) && d.dirents[i].obj.Some? ==> r == Found(ENONE, d.dirents[i].obj))
    && ((forall i :: FirstNamed(d.dirents, name, i) ==> d.dirents[i].obj.None?) ==>
          if d.hasLookup then
            if name !in d.driver || d.driver[name] == Found(ENONE, None) then r == Found(ENOTFOUND, None)
            else r == d.driver[name]
          else r == Found(if NoneNamed(d.dirents, name) then ENOTFOUND else ENOTSUP, None))
  }

  lemma FirstIsUnique(ds: seq<Dirent>, name: string)
    ensures NoneNamed(ds, name) <==> forall i :: !FirstNamed(ds, name, i)
    ensures forall i, j :: FirstNamed(ds, name, i) && FirstNamed(ds, name, j) ==> i == j
  {
    if !NoneNamed(ds, name) {
      var k :| 0 <= k < |ds| && ds[k].name == name;
      var i := FirstUpTo(ds, name, k);
    }
  }

  lemma FirstUpTo(ds: seq<Dirent>, name: string, k: nat) returns (i: nat)
    requires k < |ds| && ds[k].name == name
    ensures FirstNamed(ds, name, i)
  {
    i := 0;
    while ds[i].name != name
      invariant i <= k && forall j :: 0 <= j < i ==> ds[j].name != name
      decreases k - i
    {
      i := i + 1;
    }
  }

  /** namespace_lookup */
  method NamespaceLookup(t: Tree, dir: Obj, name: string) returns (r: Found)
    ensures Answers(DirectoryOf(t, dir), name, r)
    ensures r == Lookup(t, dir, name)
  {
    var d := DirectoryOf(t, dir);
    FirstIsUnique(d.dirents, name);
    r := DirectoryScan(d.dirents, name);
    if r.obj.Some? { return; }
    if !d.hasLookup {
      return Found(if r.err != ENONE then r.err else ENOTSUP, None);
    }
    r := if name in d.driver then d.driver[name] else Found(ENOTFOUND, None);
    if r.err == ENONE && r.obj == None { return Found(ENOTFOUND, None); }
  }

  lemma {:induction false} ScannedFirst(ds: seq<Dirent>, name: string)
    ensures forall i :: FirstNamed(ds, name, i) ==> Scanned(ds, name) == Found(ENONE, ds[i].obj)
    ensures NoneNamed(ds, name) ==> Scanned(ds, name) == Found(ENOTFOUND, None)
  {
    if ds != [] && ds[0].name != name {
      ScannedFirst(ds[1..], name);
      forall i | FirstNamed(ds, name, i) ensures Scanned(ds, name) == Found(ENONE, ds[i].obj) {
        assert FirstNamed(ds[1..], name, i - 1);
      }
    }
  }

  /** Lookup is that answer, and there is no other. */
  lemma LookupAnswers(t: Tree, dir: Obj, name: string, r: Found)
    ensures Answers(DirectoryOf(t, dir), name, r) <==> r == Lookup(t, dir, name)
  {
    FirstIsUnique(DirectoryOf(t, dir).dirents, name);
    ScannedFirst(DirectoryOf(t, dir).dirents, name);
  }

  /** Look up a list of names one below the other. */
  function LookupNames(t: Tree, dir: Obj, names: seq<string>): Found
    decreases |names|
  {
    if names == [] then Found(ENONE, Some(dir))
    else
      var r := Lookup(t, dir, names[0]);
      if r.err != ENONE then r else LookupNames(t, r.obj.value, names[1..])
  }

  /** The walk along a path that does not start with a slash. */
  function Walk(t: Tree, dir: Obj, p: string): Found
    decreases |p|
  {
    if p == "" then Found(ENONE, Some(dir))
    else
      var c := Deescaped(p);
      if !Fits(c) then Found(EINVAL, Some(dir))
      else
        var r := Lookup(t, dir, c.name);
        if r.err != ENONE then r
        else
          RestIsShorter(p);
          SkipIsShorter(c.rest);
          Walk(t, r.obj.value, SkipSlashes(c.rest))
  }

  /** CHARSKIP(path, '/') */
  method CharSkip(path: string, from: nat) returns (p: nat)
    requires from <= |path|
    ensures from <= p <= |path| && path[p..] == SkipSlashes(path[from..])
  {
    p := from;
    while p < |path| && path[p] == '/'
      invariant from <= p <= |path| && SkipSlashes(path[p..]) == SkipSlashes(path[from..])
    {
      StepAt(path, p);
      p := p + 1;
    }
  }

  /** namespace_lookup_path */
  method LookupPath(t: Tree, root: Obj, pwd: Obj, path: string, memory: bool) returns (r: Found)
    requires CString(path)
    ensures r ==
      if !memory then Found(ENOMEM, None)
      else if path != "" && path[0] == '/' then Walk(t, root, SkipSlashes(path))
      else Walk(t, pwd, path)
    ensures memory ==>
      var start, p := if path != "" && path[0] == '/' then root else pwd, SkipSlashes(path);
      FollowsChain(t, start, Names(p), !Parses(p), r)
  {
    WalkFollowsChain(t, if path != "" && path[0] == '/' then root else pwd, SkipSlashes(path));
    if !memory { return Found(ENOMEM, None); }
    var nbuf := new char[NAME_MAX](_ => '\0');
    var dir, p := pwd, 0;
    if At(path, 0) == '/' {
      dir := root;
      p := CharSkip(path, 0);
    }
    assert path[0..] == path;
    ghost var whole := Walk(t, dir, path[p..]);
    r := Found(ENONE, Some(dir));
    while At(path, p) != '\0'
      invariant p <= |path| && r == Found(ENONE, Some(dir))
      invariant Walk(t, dir, path[p..]) == whole
      decreases |path| - p
    {
      var err, next := DeescapePath(nbuf, path, p);
      if err != ENONE { return Found(err, r.obj); }
      ghost var c := Deescaped(path[p..]);
      RestIsShorter(path[p..]);
      var name := ReadString(nbuf, c.name);
      r := NamespaceLookup(t, dir, name);
      if r.err != ENONE { return; }
      p := CharSkip(path, next);
      dir := r.obj.value;
    }
    assert path[p..] == "";
  }

  /** The C string at the start of the buffer. */
  method ReadString(buf: array<char>, ghost s: string) returns (r: string)
    requires |s| < buf.Length && buf[..|s|] == s && buf[|s|] == '\0' && CString(s)
    ensures r == s
  {
    var i := 0;
    assert forall k :: 0 <= k < |s| ==> buf[k] == buf[..|s|][k] != '\0';
    while buf[i] != '\0'
      invariant 0 <= i <= |s|
      decreases |s| - i
    {
      assert i != |s|;
      i := i + 1;
    }
    return buf[..i];
  }

  // ----- Every path -----

  /** The names of a path up to its end or to a component that is refused. */
  function Names(p: string): (names: seq<string>)
    decreases |p|
  {
    if p == "" || !Fits(Deescaped(p)) then []
    else
      RestIsShorter(p);
      SkipIsShorter(Deescaped(p).rest);
      [Deescaped(p).name] + Names(SkipSlashes(Deescaped(p).rest))
  }

  /** Are all components of the path well-formed and short enough? */
  predicate Parses(p: string)
    decreases |p|
  {
    if p == "" then true
    else if !Fits(Deescaped(p)) then false
    else
      RestIsShorter(p);
      SkipIsShorter(Deescaped(p).rest);
      Parses(SkipSlashes(Deescaped(p).rest))
  }

  /** A walk that gets through the well-formed prefix of a path answers EINVAL exactly if more follows. */
  lemma {:induction false} WalkIsLookupOfNames(t: Tree, dir: Obj, p: string)
    ensures LookupNames(t, dir, Names(p)).err != ENONE ==> Walk(t, dir, p) == LookupNames(t, dir, Names(p))
    ensures LookupNames(t, dir, Names(p)).err == ENONE ==>
      Walk(t, dir, p) == Found(if Parses(p) then ENONE else EINVAL, LookupNames(t, dir, Names(p)).obj)
    decreases |p|
  {
    if p != "" && Fits(Deescaped(p)) {
      RestIsShorter(p);
      SkipIsShorter(Deescaped(p).rest);
      var rest := SkipSlashes(Deescaped(p).rest);
      var r := Lookup(t, dir, Deescaped(p).name);
      assert Names(p) == [Deescaped(p).name] + Names(rest);
      assert Names(p)[1..] == Names(rest);
      if r.err == ENONE { WalkIsLookupOfNames(t, r.obj.value, rest); }
    }
  }

  /** Each directory of the chain answers its name with the next one. */
  ghost predicate Chain(t: Tree, dirs: seq<Obj>, names: seq<string>) {
    && 0 < |dirs| <= |names| + 1
    && forall i :: 0 <= i < |dirs| - 1 ==> Answers(DirectoryOf(t, dirs[i]), names[i], Found(ENONE, Some(dirs[i + 1])))
  }

  /** How a chain ends: with all names answered, or at the first that is answered with an error. */
  ghost predicate EndsWith(t: Tree, dirs: seq<Obj>, names: seq<string>, refused: bool, r: Found)
    requires 0 < |dirs| <= |names| + 1
  {
    var last := dirs[|dirs| - 1];
    if |dirs| == |names| + 1 then r == Found(if refused then EINVAL else ENONE, Some(last))
    else r.err != ENONE && Answers(DirectoryOf(t, last), names[|dirs| - 1], r)
  }

  /** The result of looking up names one below the other, from start on; refused says that the path goes on badly. */
  ghost predicate FollowsChain(t: Tree, start: Obj, names: seq<string>, refused: bool, r: Found) {
    exists dirs :: Chain(t, dirs, names) && dirs[0] == start && EndsWith(t, dirs, names, refused, r)
  }

  /** There is always such a chain. */
  lemma {:induction false} LookupFollowsChain(t: Tree, start: Obj, names: seq<string>)
    ensures FollowsChain(t, start, names, false, LookupNames(t, start, names))
    decreases |names|
  {
    if names == [] {
      assert Chain(t, [start], names) && EndsWith(t, [start], names, false, LookupNames(t, start, names));
    } else {
      var r := Lookup(t, start, names[0]);
      LookupAnswers(t, start, names[0], r);
      if r.err != ENONE {
        assert Chain(t, [start], names) && EndsWith(t, [start], names, false, r);
      } else {
        LookupFollowsChain(t, r.obj.value, names[1..]);
        var rest :| Chain(t, rest, names[1..]) && rest[0] == r.obj.value
          && EndsWith(t, rest, names[1..], false, LookupNames(t, r.obj.value, names[1..]));
        Longer(t, start, rest, names, LookupNames(t, start, names));
      }
    }
  }

  lemma Longer(t: Tree, start: Obj, rest: seq<Obj>, names: seq<string>, r: Found)
    requires names != [] && Chain(t, rest, names[1..]) && EndsWith(t, rest, names[1..], false, r)
    requires Answers(DirectoryOf(t, start), names[0], Found(ENONE, Some(rest[0])))
    ensures FollowsChain(t, start, names, false, r)
  {
    var dirs := [start] + rest;
    forall i | 0 <= i < |dirs| - 1 ensures Answers(DirectoryOf(t, dirs[i]), names[i], Found(ENONE, Some(dirs[i + 1]))) {
      if i > 0 { assert Answers(DirectoryOf(t, rest[i - 1]), names[1..][i - 1], Found(ENONE, Some(rest[i]))); }
    }
    assert Chain(t, dirs, names) && EndsWith(t, dirs, names, false, r);
  }

  /** A walk along any path does so with the path's names. */
  lemma WalkFollowsChain(t: Tree, start: Obj, p: string)
    ensures FollowsChain(t, start, Names(p), !Parses(p), Walk(t, start, p))
  {
    WalkIsLookupOfNames(t, start, p);
    LookupFollowsChain(t, start, Names(p));
    var r := LookupNames(t, start, Names(p));
    var dirs :| Chain(t, dirs, Names(p)) && dirs[0] == start && EndsWith(t, dirs, Names(p), false, r);
    assert EndsWith(t, dirs, Names(p), !Parses(p), Walk(t, start, p));
  }

  /** Two chains for the same names begin alike, so that there is only one result. */
  lemma {:induction false} ChainIsUnique(t: Tree, a: seq<Obj>, b: seq<Obj>, names: seq<string>, k: nat)
    requires Chain(t, a, names) && Chain(t, b, names) && a[0] == b[0] && k < |a| && k < |b|
    ensures a[k] == b[k]
  {
    if k > 0 {
      ChainIsUnique(t, a, b, names, k - 1);
      LookupAnswers(t, a[k - 1], names[k - 1], Found(ENONE, Some(a[k])));
      LookupAnswers(t, b[k - 1], names[k - 1], Found(ENONE, Some(b[k])));
    }
  }

  lemma OneResult(t: Tree, start: Obj, names: seq<string>, refused: bool, r: Found, r': Found)
    requires FollowsChain(t, start, names, refused, r) && FollowsChain(t, start, names, refused, r')
    ensures r == r'
  {
    var a :| Chain(t, a, names) && a[0] == start && EndsWith(t, a, names, refused, r);
    var b :| Chain(t, b, names) && b[0] == start && EndsWith(t, b, names, refused, r');
    NoneIsLonger(t, a, b, names, refused, r);
    NoneIsLonger(t, b, a, names, refused, r');
    ChainIsUnique(t, a, b, names, |a| - 1);
    if |a| <= |names| {
      LookupAnswers(t, a[|a| - 1], names[|a| - 1], r);
      LookupAnswers(t, a[|a| - 1], names[|a| - 1], r');
    }
  }

  lemma NoneIsLonger(t: Tree, a: seq<Obj>, b: seq<Obj>, names: seq<string>, refused: bool, r: Found)
    requires Chain(t, a, names) && Chain(t, b, names) && a[0] == b[0] && EndsWith(t, a, names, refused, r)
    ensures |b| <= |a|
  {
    var k := |a| - 1;
    if |a| < |b| {
      ChainIsUnique(t, a, b, names, k);
      LookupAnswers(t, a[k], names[k], r);
      LookupAnswers(t, a[k], names[k], Found(ENONE, Some(b[k + 1])));
    }
  }

  /** No path makes the kernel look up an empty name. */
  lemma {:induction false} NamesAreNotEmpty(p: string)
    requires p == "" || p[0] != '/'
    ensures forall i :: 0 <= i < |Names(p)| ==> 0 < |Names(p)[i]| < NAME_MAX
    decreases |p|
  {
    if p != "" && Fits(Deescaped(p)) {
      RestIsShorter(p);
      SkipIsShorter(Deescaped(p).rest);
      NamesAreNotEmpty(SkipSlashes(Deescaped(p).rest));
    }
  }

  // ----- Printing -----

  /** A backslash in front of every slash and backslash. */
  function Escape(name: string): string {
    if name == "" then ""
    else EscapeChar(name[0]) + Escape(name[1..])
  }

  function EscapeChar(c: char): string {
    if c == '/' || c == '\\' then ['\\', c] else [c]
  }

  function Slashes(n: nat): string {
    if n == 0 then "" else "/" + Slashes(n - 1)
  }

  /** The names with the given number of slashes behind each. */
  function Print(names: seq<string>, seps: seq<nat>): string
    requires |seps| == |names|
  {
    if names == [] then "" else Escape(names[0]) + Slashes(seps[0]) + Print(names[1..], seps[1..])
  }

  /** At least one slash between names; a name fits behind a slash or, one shorter, at the end. */
  ghost predicate Printable(names: seq<string>, seps: seq<nat>) {
    && |seps| == |names|
    && (forall i :: 0 <= i < |names| - 1 ==> seps[i] >= 1)
    && (forall i :: 0 <= i < |names| ==> names[i] != "" && |names[i]| + (if seps[i] >= 1 then 0 else 1) < NAME_MAX)
  }

  lemma FirstCharacter(c: char, q: string)
    ensures Deescaped(EscapeChar(c) + q) == Prepend(c, Deescaped(q))
  {
    var p := EscapeChar(c) + q;
    assert p[|EscapeChar(c)|..] == q;
  }

  lemma {:induction false} EscapeRoundTrip(name: string, tail: string)
    requires tail == "" || tail[0] == '/'
    ensures Deescaped(Escape(name) + tail) == Component(name, if tail == "" then "" else tail[1..], tail != "")
  {
    var p := Escape(name) + tail;
    if name == "" {
      assert p == tail;
    } else {
      var c, rest := name[0], name[1..];
      var q := Escape(rest) + tail;
      EscapeRoundTrip(rest, tail);
      assert p == EscapeChar(c) + q;
      FirstCharacter(c, q);
      assert [c] + rest == name;
    }
  }

  /** The text stands for the name: a backslash before any character, and before every slash and backslash. */
  ghost predicate Spells(p: string, name: string)
    decreases |p|
  {
    if p == "" then name == ""
    else if p[0] == '\\' then |p| >= 2 && name != "" && name[0] == p[1] && Spells(p[2..], name[1..])
    else p[0] != '/' && name != "" && name[0] == p[0] && Spells(p[1..], name[1..])
  }

  lemma Grouped(a: string, b: string, c: string)
    ensures a + (b + c) == a + b + c
  {
  }

  /** Any spelling of a name at the head of a path is read as that name. */
  lemma {:induction false} SpellingIsRead(p: string, name: string, tail: string)
    requires Spells(p, name) && (tail == "" || tail[0] == '/')
    ensures Deescaped(p + tail) == Component(name, if tail == "" then "" else tail[1..], tail != "")
    decreases |p|
  {
    var q := p + tail;
    if p == "" {
      assert q == tail;
    } else {
      var n := if p[0] == '\\' then 2 else 1;
      SpellingIsRead(p[n..], name[1..], tail);
      Grouped(p[..n], p[n..], tail);
      assert p[..n] + p[n..] == p && q[n..] == p[n..] + tail && [name[0]] + name[1..] == name;
    }
  }

  /** Does the text stand for the one character? */
  ghost predicate SpellsOne(h: string, c: char) {
    if |h| == 1 then h[0] == c && c != '\\' && c != '/' else |h| == 2 && h[0] == '\\' && h[1] == c
  }

  lemma SpellsMore(h: string, c: char, p: string, name: string)
    requires SpellsOne(h, c) && Spells(p, name)
    ensures Spells(h + p, [c] + name)
  {
    var q, longer := h + p, [c] + name;
    assert q[|h|..] == p && longer[1..] == name;
  }

  lemma ReadStep(q: string) returns (h: string, c: char, rest: string)
    requires q != "" && q[0] != '/' && q != "\\"
    ensures q == h + rest && SpellsOne(h, c) && Deescaped(q) == Prepend(c, Deescaped(rest))
  {
    var n := if q[0] == '\\' then 2 else 1;
    h, c, rest := q[..n], q[n - 1], q[n..];
  }

  /** What stands behind a component: nothing at the end of the path, and else a slash and what follows. */
  function Behind(c: Component): string
    requires c.Component?
  {
    if c.slash then "/" + c.rest else c.rest
  }

  /** What is read as a name is a spelling of it, up to the end or a slash. */
  lemma {:induction false} ReadIsSpelt(q: string) returns (p: string)
    requires Deescaped(q).Component?
    ensures var c := Deescaped(q);
      Spells(p, c.name) && q == p + Behind(c) && (!c.slash ==> c.rest == "")
    decreases |q|
  {
    if q == "" || q[0] == '/' {
      p := "";
      assert q != "" ==> q == "/" + q[1..];
    } else {
      var h, c, rest := ReadStep(q);
      var more := ReadIsSpelt(rest);
      SpellsMore(h, c, more, Deescaped(rest).name);
      p := h + more;
      Grouped(h, more, Behind(Deescaped(rest)));
    }
  }

  /** A path is refused for a backslash at the end of a name, and only for that, or for the name's length. */
  lemma {:induction false} LoneBackslashExactly(q: string) returns (p: string, name: string)
    requires Deescaped(q) == LoneBackslash
    ensures Spells(p, name) && q == p + "\\"
    decreases |q|
  {
    if q == "\\" {
      p, name := "", "";
    } else {
      var h, c, rest := ReadStep(q);
      var more, tail := LoneBackslashExactly(rest);
      SpellsMore(h, c, more, tail);
      p, name := h + more, [c] + tail;
    }
  }

  lemma {:induction false} TrailingBackslash(p: string, name: string)
    requires Spells(p, name)
    ensures Deescaped(p + "\\") == LoneBackslash
    decreases |p|
  {
    var q := p + "\\";
    if p != "" {
      var rest := if p[0] == '\\' then p[2..] else p[1..];
      TrailingBackslash(rest, name[1..]);
      assert (if p[0] == '\\' then q[2..] else q[1..]) == rest + "\\";
    }
  }

  /** A name of any length fits before a slash exactly if it is shorter than NAME_MAX, and at the end by one less. */
  lemma EscapedFitsExactly(name: string, tail: string)
    requires tail == "" || tail[0] == '/'
    ensures Fits(Deescaped(Escape(name) + tail)) <==> |name| < NAME_MAX - if tail == "" then 1 else 0
  {
    EscapeRoundTrip(name, tail);
  }

  lemma {:induction false} SkipRun(n: nat, tail: string)
    requires tail == "" || tail[0] != '/'
    ensures SkipSlashes(Slashes(n) + tail) == tail
  {
    if n == 0 {
      assert Slashes(n) + tail == tail;
    } else {
      assert (Slashes(n) + tail)[1..] == Slashes(n - 1) + tail;
      SkipRun(n - 1, tail);
    }
  }

  lemma PrintStartsAName(names: seq<string>, seps: seq<nat>)
    requires Printable(names, seps)
    ensures Print(names, seps) == "" <==> names == []
    ensures names != [] ==> Print(names, seps)[0] != '/'
  {
    if names != [] { assert |Escape(names[0])| > 0 && Escape(names[0])[0] != '/'; }
  }

  /** De-escaping a printed path takes off the first name and the slashes behind it. */
  lemma FirstName(names: seq<string>, seps: seq<nat>)
    requires Printable(names, seps) && names != []
    ensures var c := Deescaped(Print(names, seps));
      Fits(c) && c.name == names[0] && SkipSlashes(c.rest) == Print(names[1..], seps[1..])
  {
    PrintStartsAName(names[1..], seps[1..]);
    var tail := TailOfSlashes(seps[0], Print(names[1..], seps[1..]));
    assert Print(names, seps) == Escape(names[0]) + tail;
    EscapeRoundTrip(names[0], tail);
  }

  /** What follows the first name is empty or starts with a slash; skipping leads to the next name. */
  lemma TailOfSlashes(sep: nat, more: string) returns (tail: string)
    requires more == "" || (more[0] != '/' && sep >= 1)
    ensures tail == Slashes(sep) + more
    ensures tail == "" <==> sep == 0
    ensures if tail == "" then more == "" else tail[0] == '/' && SkipSlashes(tail[1..]) == more
  {
    tail := Slashes(sep) + more;
    if sep > 0 {
      assert tail[1..] == Slashes(sep - 1) + more;
      SkipRun(sep - 1, more);
    }
  }

  lemma NamesStep(p: string, name: string, rest: string)
    requires p != "" && Fits(Deescaped(p)) && Deescaped(p).name == name && SkipSlashes(Deescaped(p).rest) == rest
    ensures Names(p) == [name] + Names(rest) && Parses(p) == Parses(rest)
  {
  }

  /** Round trip: parsing a printed list of names gives exactly these names. */
  lemma {:induction false} PrintRoundTrip(names: seq<string>, seps: seq<nat>)
    requires Printable(names, seps)
    ensures Parses(Print(names, seps)) && Names(Print(names, seps)) == names
    decreases |names|
  {
    PrintStartsAName(names, seps);
    if names != [] {
      var rest := Print(names[1..], seps[1..]);
      FirstName(names, seps);
      PrintRoundTrip(names[1..], seps[1..]);
      NamesStep(Print(names, seps), names[0], rest);
      assert [names[0]] + names[1..] == names;
    }
  }

  /** So looking up a printed list of names, absolute with slashes in front or relative, follows these names. */
  lemma PrintedPathFollowsChain(t: Tree, start: Obj, lead: nat, names: seq<string>, seps: seq<nat>, dirs: seq<Obj>)
    requires Printable(names, seps) && Chain(t, dirs, names) && |dirs| == |names| + 1 && dirs[0] == start
    ensures Walk(t, start, SkipSlashes(Slashes(lead) + Print(names, seps))) == Found(ENONE, Some(dirs[|names|]))
  {
    PrintStartsAName(names, seps);
    SkipRun(lead, Print(names, seps));
    PrintRoundTrip(names, seps);
    WalkFollowsChain(t, start, Print(names, seps));
    var r := Found(ENONE, Some(dirs[|names|]));
    assert EndsWith(t, dirs, names, false, r);
    OneResult(t, start, names, false, r, Walk(t, start, Print(names, seps)));
  }

  /** So the kernel looks up exactly those names in order, for relative and for absolute paths. */
  lemma PrintedPathIsLookedUp(t: Tree, dir: Obj, lead: nat, names: seq<string>, seps: seq<nat>)
    requires Printable(names, seps)
    ensures Walk(t, dir, SkipSlashes(Slashes(lead) + Print(names, seps))) == LookupNames(t, dir, names)
  {
    PrintStartsAName(names, seps);
    SkipRun(lead, Print(names, seps));
    PrintRoundTrip(names, seps);
    WalkIsLookupOfNames(t, dir, Print(names, seps));
  }

  function OneEach(n: nat): (s: seq<nat>)
    ensures |s| == n && forall i :: 0 <= i < n ==> s[i] == 1
  {
    seq(n, _ => 1)
  }

  /** Printing the names of any path, a slash behind each, gives a well-formed path with the same names. */
  lemma Canonical(p: string)
    requires p == "" || p[0] != '/'
    ensures var q := Print(Names(p), OneEach(|Names(p)|)); Parses(q) && Names(q) == Names(p)
  {
    NamesAreNotEmpty(p);
    PrintRoundTrip(Names(p), OneEach(|Names(p)|));
  }
}
