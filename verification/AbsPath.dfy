// abspath: in-place path normalisation over a buffer that grows.
module AbsPath {
  import opened Basics

  // ---------- reference definition: a stack of components ----------

  // Length of the part of s before its first slash.
  function Head(s: string): (k: nat)
    ensures k <= |s| && (forall i :: 0 <= i < k ==> s[i] != '/') && (k < |s| ==> s[k] == '/')
  {
    if s == [] || s[0] == '/' then 0 else 1 + Head(s[1..])
  }

  // The non-empty parts between slashes.
  function Components(s: string): (cs: seq<string>)
    ensures forall i :: 0 <= i < |cs| ==> IsComponent(cs[i])
    decreases |s|
  {
    if s == [] then []
    else if s[0] == '/' then Components(s[1..])
    else [s[..Head(s)]] + Components(s[Head(s)..])
  }

  predicate IsComponent(c: string) { c != [] && forall i :: 0 <= i < |c| ==> c[i] != '/' }

  function Push(stack: seq<string>, c: string): seq<string>
  {
    if c == "." then stack
    else if c == ".." then (if stack == [] then [] else stack[..|stack| - 1])
    else stack + [c]
  }

  function PushAll(stack: seq<string>, cs: seq<string>): seq<string>
    decreases |cs|
  {
    if cs == [] then stack else PushAll(Push(stack, cs[0]), cs[1..])
  }

  // The components, each followed by a slash, after a leading slash.
  function Slashed(stack: seq<string>): (s: string)
    ensures s != [] && s[|s| - 1] == '/' && s[0] == '/'
  {
    if stack == [] then "/" else Slashed(stack[..|stack| - 1]) + stack[|stack| - 1] + "/"
  }

  function Render(stack: seq<string>): string
  {
    if stack == [] then "/" else Slashed(stack)[..|Slashed(stack)| - 1]
  }

  // A component that is a name: neither empty, nor with a slash, nor "." or "..".
  predicate IsName(c: string) { IsComponent(c) && c != "." && c != ".." }

  ghost predicate Names(stack: seq<string>) { forall i :: 0 <= i < |stack| ==> IsName(stack[i]) }

  // What realpath without symbolic links means.
  function Normalized(cwd: string, name: string): string
  {
    Render(PushAll(if name != [] && name[0] == '/' then [] else Components(cwd), Components(name)))
  }

  // ---------- properties of the reference ----------

  lemma {:induction false} PushAllNames(stack: seq<string>, cs: seq<string>)
    requires Names(stack) && forall i :: 0 <= i < |cs| ==> IsComponent(cs[i])
    ensures Names(PushAll(stack, cs))
    decreases |cs|
  {
    if cs != [] {
      PushAllNames(Push(stack, cs[0]), cs[1..]);
    }
  }

  lemma {:induction false} PushNames(stack: seq<string>, names: seq<string>)
    requires Names(names)
    ensures PushAll(stack, names) == stack + names
    decreases |names|
  {
    if names == [] {
      assert stack + names == stack;
    } else {
      PushNames(stack + [names[0]], names[1..]);
      assert stack + [names[0]] + names[1..] == stack + names;
    }
  }

  lemma {:induction false} ComponentsAppend(s: string, t: string)
    requires t == [] || t[0] == '/' || (s != [] && s[|s| - 1] == '/')
    ensures Components(s + t) == Components(s) + Components(t)
    decreases |s|
  {
    hide Head;
    if s == [] {
      assert s + t == t;
    } else if s[0] == '/' {
      SliceAppend(s, t, 1);
      if s[1..] == [] {
        assert s[1..] + t == t;
      } else {
        ComponentsAppend(s[1..], t);
      }
    } else {
      var k := Head(s);
      HeadAppend(s, t);
      HeadPositive(s);
      SliceAppend(s, t, k);
      ComponentsAppend(s[k..], t);
      NextComponent(s);
      NextComponent(s + t);
    }
  }

  lemma HeadPositive(s: string)
    requires s != [] && s[0] != '/'
    ensures Head(s) > 0
  {
  }

  lemma SliceAppend(s: string, t: string, k: nat)
    requires k <= |s|
    ensures (s + t)[..k] == s[..k] && (s + t)[k..] == s[k..] + t
  {
  }

  lemma {:induction false} HeadAppend(s: string, t: string)
    requires t == [] || t[0] == '/' || Head(s) < |s|
    ensures Head(s + t) == Head(s)
    decreases |s|
  {
    if s == [] {
      assert s + t == t;
    } else if s[0] != '/' {
      assert (s + t)[1..] == s[1..] + t;
      HeadAppend(s[1..], t);
    }
  }

  lemma {:induction false} HeadOfComponent(c: string)
    requires forall i :: 0 <= i < |c| ==> c[i] != '/'
    ensures Head(c) == |c|
  {
    if c != [] {
      HeadOfComponent(c[1..]);
    }
  }

  lemma ComponentsOfOne(c: string)
    requires IsComponent(c)
    ensures Components(c) == [c]
  {
    HeadOfComponent(c);
    assert c[..|c|] == c && c[|c|..] == [];
  }

  lemma {:induction false} ComponentsOfSlashed(stack: seq<string>)
    requires forall i :: 0 <= i < |stack| ==> IsComponent(stack[i])
    ensures Components(Slashed(stack)) == stack
    decreases |stack|
  {
    hide Components, IsComponent;
    OneSlash();
    if stack != [] {
      var init, c := stack[..|stack| - 1], stack[|stack| - 1];
      ComponentsOfSlashed(init);
      ComponentAndSlash(c);
      SlashedAppend(init, c + "/");
      assert Slashed(init) + (c + "/") == Slashed(stack);
      assert init + [c] == stack;
    }
  }

  lemma OneSlash()
    ensures Components("/") == []
  {
    assert "/"[1..] == [];
  }

  lemma ComponentAndSlash(c: string)
    requires IsComponent(c)
    ensures Components(c + "/") == [c]
  {
    ComponentsOfOne(c);
    ComponentsAppend(c, "/");
    OneSlash();
    assert [c] + [] == [c];
  }

  lemma SlashedAppend(stack: seq<string>, t: string)
    ensures Components(Slashed(stack) + t) == Components(Slashed(stack)) + Components(t)
  {
    ComponentsAppend(Slashed(stack), t);
  }

  // Splitting a rendered stack gives the stack back.
  lemma ComponentsOfRender(stack: seq<string>)
    requires forall i :: 0 <= i < |stack| ==> IsComponent(stack[i])
    ensures Components(Render(stack)) == stack
  {
    ComponentsOfSlashed(stack);
    if stack != [] {
      var s := Slashed(stack);
      assert Render(stack) + "/" == s;
      ComponentsAppend(Render(stack), "/");
      assert Components("/") == [] by { assert "/"[1..] == []; }
    }
  }

  // Normalising twice changes nothing, from whatever directory.
  lemma Idempotent(cwd: string, cwd': string, name: string)
    requires Names(Components(cwd))
    ensures Normalized(cwd', Normalized(cwd, name)) == Normalized(cwd, name)
  {
    var stack := PushAll(if name != [] && name[0] == '/' then [] else Components(cwd), Components(name));
    PushAllNames(if name != [] && name[0] == '/' then [] else Components(cwd), Components(name));
    ComponentsOfRender(stack);
    PushNames([], stack);
    assert [] + stack == stack;
    assert Render(stack)[0] == '/';
  }

  // The result is absolute, has only names for components, and ends in a slash only when it is the root.
  lemma ResultShape(cwd: string, name: string)
    requires Names(Components(cwd))
    ensures var r := Normalized(cwd, name);
      && r[..1] == "/" && Names(Components(r)) && r == Render(Components(r))
      && (r[|r| - 1] == '/' <==> r == "/")
  {
    var stack := PushAll(if name != [] && name[0] == '/' then [] else Components(cwd), Components(name));
    PushAllNames(if name != [] && name[0] == '/' then [] else Components(cwd), Components(name));
    ComponentsOfRender(stack);
    if stack != [] {
      var c := stack[|stack| - 1];
      assert Slashed(stack) == Slashed(stack[..|stack| - 1]) + c + "/";
      assert Render(stack) == Slashed(stack[..|stack| - 1]) + c;
      assert Render(stack)[|Render(stack)| - 1] == c[|c| - 1];
    }
  }

  // ---------- what the reference means for paths ----------

  // An absolute path of names.
  ghost predicate Clean(path: string) { path == Render(Components(path)) && Names(Components(path)) }

  // The entry c of a directory.
  function Joined(dir: string, c: string): string { if dir == "/" then "/" + c else dir + "/" + c }

  predicate Relative(name: string) { name == [] || name[0] != '/' }

  lemma CleanRender(stack: seq<string>)
    requires Names(stack)
    ensures Clean(Render(stack)) && Components(Render(stack)) == stack
  {
    ComponentsOfRender(stack);
  }

  lemma RenderMore(stack: seq<string>, c: string)
    requires Names(stack)
    ensures Render(stack + [c]) == Joined(Render(stack), c)
  {
    PushHolds(stack, c);
    if stack != [] {
      CleanRender(stack);
      OneSlash();
      assert Render(stack) + "/" == Slashed(stack);
    }
  }

  lemma {:induction false} PushAllAppend(stack: seq<string>, cs: seq<string>, more: seq<string>)
    ensures PushAll(stack, cs + more) == PushAll(PushAll(stack, cs), more)
    decreases |cs|
  {
    if cs == [] {
      assert cs + more == more;
    } else {
      assert (cs + more)[1..] == cs[1..] + more;
      PushAllAppend(Push(stack, cs[0]), cs[1..], more);
    }
  }

  lemma PushOne(cwd: string, c: string)
    requires IsComponent(c)
    ensures Normalized(cwd, c) == Render(Push(Components(cwd), c))
  {
    hide Head, Render;
    ComponentsOfOne(c);
    assert c[0] != '/';
    assert PushAll(Push(Components(cwd), c), []) == Push(Components(cwd), c);
    assert PushAll(Components(cwd), [c]) == Push(Components(cwd), c);
  }

  // Nothing, and ".", name the directory itself.
  lemma SameDirectory(cwd: string)
    requires Clean(cwd)
    ensures Normalized(cwd, "") == cwd && Normalized(cwd, ".") == cwd
  {
    PushOne(cwd, ".");
  }

  // A name is an entry of the directory.
  lemma Child(cwd: string, c: string)
    requires Clean(cwd) && IsName(c)
    ensures Normalized(cwd, c) == Joined(cwd, c) && Clean(Joined(cwd, c))
  {
    PushOne(cwd, c);
    RenderMore(Components(cwd), c);
    CleanRender(Components(cwd) + [c]);
  }

  // ".." is the directory of which this one is an entry; the root has none but itself.
  lemma Parent(cwd: string)
    requires Clean(cwd)
    ensures var up := Normalized(cwd, "..");
      Clean(up) && if cwd == "/" then up == "/" else exists c :: IsName(c) && cwd == Joined(up, c)
  {
    hide Components, PushAll, Normalized, Joined, Slashed, Render, IsName, Names;
    var stack := Components(cwd);
    OneSlash();
    RootRender();
    PushOne(cwd, "..");
    if stack != [] {
      LastName(stack);
    }
  }

  lemma RootRender()
    ensures Render([]) == "/" && Clean("/")
  {
    OneSlash();
  }

  lemma LastName(stack: seq<string>)
    requires Names(stack) && stack != []
    ensures var init, c := stack[..|stack| - 1], stack[|stack| - 1];
      Clean(Render(init)) && IsName(c) && Render(stack) == Joined(Render(init), c)
  {
    hide Components, Slashed, Render, Joined, IsName;
    var init, c := stack[..|stack| - 1], stack[|stack| - 1];
    CleanRender(init);
    RenderMore(init, c);
    assert init + [c] == stack;
  }

  // A path may be followed in two steps.
  lemma InSteps(cwd: string, a: string, b: string)
    requires Names(Components(cwd)) && a != "" && Relative(b)
    ensures Normalized(cwd, a + "/" + b) == Normalized(Normalized(cwd, a), b)
  {
    hide Head, Components, Slashed, Render, PushAll, Push, IsName;
    var stack := if a[0] == '/' then [] else Components(cwd);
    ComponentsAppend(a, "/");
    ComponentsAppend(a + "/", b);
    OneSlash();
    assert Components(a) + [] == Components(a);
    PushAllAppend(stack, Components(a), Components(b));
    PushAllNames(stack, Components(a));
    CleanRender(PushAll(stack, Components(a)));
  }

  // An absolute path starts at the root, wherever the process is.
  lemma FromRoot(cwd: string, b: string)
    ensures Normalized(cwd, "/" + b) == Normalized("/", b)
  {
    assert ("/" + b)[1..] == b;
    OneSlash();
  }

  // ---------- the C function ----------

  const PATH_MAX: nat := 4096

  datatype Outcome = Path(s: string) | InvalidArgument | NoEntry | OutOfMemory | NoCwd

  // What the buffer holds up to dest while the stack is as given: with or without a slash at the end.
  ghost predicate Holds(s: string, stack: seq<string>)
  {
    s == Slashed(stack) || s == Render(stack)
  }

  lemma PopHolds(s: string, stack: seq<string>)
    requires Holds(s, stack) && stack != [] && IsComponent(stack[|stack| - 1])
    ensures var p := Slashed(stack[..|stack| - 1]);
      && |p| < |s| && s[..|p|] == p && |s| > 1
      && (forall i :: |p| <= i < |s| - 1 ==> s[i] != '/')
  {
    var p, c := Slashed(stack[..|stack| - 1]), stack[|stack| - 1];
    assert Slashed(stack) == p + c + "/";
    assert Render(stack) == p + c;
  }

  lemma PushHolds(stack: seq<string>, c: string)
    ensures Slashed(stack) + c == Render(stack + [c])
  {
    var all := stack + [c];
    assert all[..|all| - 1] == stack;
    assert Slashed(all) == Slashed(stack) + c + "/";
  }

  // Skipping slashes does not change the components that are left.
  lemma NextComponent(s: string)
    requires s != [] && s[0] != '/'
    ensures Head(s) > 0
    ensures Components(s) == [s[..Head(s)]] + Components(s[Head(s)..])
  {
  }

  method FindEnd(name: string, start: nat) returns (end: nat)
    requires start <= |name|
    ensures end == start + Head(name[start..]) <= |name|
  {
    end := start;
    while end < |name| && name[end] != '/'
      invariant start <= end <= |name|
      invariant start + Head(name[start..]) == end + Head(name[end..])
    {
      assert name[end..][1..] == name[end + 1..];
      end := end + 1;
    }
  }

  // realloc: a larger buffer with the same beginning.
  method Grow(buffer: array<char>, used: nat, size: nat) returns (bigger: array<char>)
    requires used <= buffer.Length <= size
    ensures fresh(bigger) && bigger.Length == size && bigger[..used] == buffer[..used]
  {
    bigger := new char[size](_ => '\0');
    for i := 0 to used
      invariant bigger[..i] == buffer[..i]
    {
      bigger[i] := buffer[i];
    }
  }

  // Steps back until the character before is a slash, at least once.
  method BackUp(buffer: array<char>, dest0: nat, ghost p: nat) returns (dest: nat)
    requires 1 <= p < dest0 <= buffer.Length && buffer[p - 1] == '/'
    requires forall i :: p <= i < dest0 - 1 ==> buffer[i] != '/'
    ensures dest == p
  {
    dest := dest0 - 1;
    while buffer[dest - 1] != '/'
      invariant p <= dest < dest0
      decreases dest
    {
      dest := dest - 1;
    }
  }

  // The buffer with the starting directory in it.
  method StartBuffer(absolute: bool, cwd: string) returns (rpath: array<char>, dest: nat)
    requires cwd != [] && |cwd| < PATH_MAX
    ensures fresh(rpath) && rpath.Length == PATH_MAX && 1 <= dest < PATH_MAX
    ensures rpath[..dest] == if absolute then "/" else cwd
  {
    rpath := new char[PATH_MAX](_ => '\0');
    if !absolute {
      for i := 0 to |cwd|
        invariant rpath[..i] == cwd[..i]
      {
        rpath[i] := cwd[i];
      }
      rpath[|cwd|] := '\0';
      dest := |cwd|;
      assert cwd[..|cwd|] == cwd;
    } else {
      rpath[0] := '/';
      dest := 1;
    }
  }

  // "..": back up to behind the previous slash, or stay at the root.
  method Pop(rpath: array<char>, dest0: nat, ghost stack: seq<string>) returns (dest: nat)
    requires 1 <= dest0 < rpath.Length && Holds(rpath[..dest0], stack) && Names(stack)
    ensures 1 <= dest <= dest0 && Holds(rpath[..dest], Push(stack, ".."))
  {
    hide Slashed, Render;
    dest := dest0;
    if dest > 1 {
      NotRoot(rpath[..dest], stack);
      ghost var p := Slashed(stack[..|stack| - 1]);
      PopHolds(rpath[..dest], stack);
      assert rpath[..dest][..|p|] == rpath[..|p|];
      assert rpath[|p| - 1] == p[|p| - 1];
      forall i | |p| <= i < dest - 1
        ensures rpath[i] != '/'
      {
        assert rpath[i] == rpath[..dest][i];
      }
      dest := BackUp(rpath, dest, |p|);
    } else {
      RootOnly(rpath[..dest], stack);
    }
  }

  // mempcpy
  method CopyName(buffer: array<char>, at: nat, c: string) returns (dest: nat)
    requires at + |c| < buffer.Length
    modifies buffer
    ensures dest == at + |c| && buffer[..dest] == old(buffer[..at]) + c
  {
    for k := 0 to |c|
      invariant buffer[..at + k] == old(buffer[..at]) + c[..k]
    {
      buffer[at + k] := c[k];
    }
    assert c[..|c|] == c;
    dest := at + |c|;
  }

  // A name: a slash if there is none, room for the name and its end if there is none, then the name.
  method Append(rpath0: array<char>, dest0: nat, c: string, canAllocate: nat -> bool, ghost stack: seq<string>)
    returns (ok: bool, rpath: array<char>, dest: nat)
    requires 1 <= dest0 < rpath0.Length && Holds(rpath0[..dest0], stack) && Names(stack)
    modifies rpath0
    ensures ok ==> 1 <= dest < rpath.Length && Holds(rpath[..dest], stack + [c])
    ensures rpath == rpath0 || fresh(rpath)
    ensures !ok ==> exists n :: !canAllocate(n)
  {
    hide Slashed, Render, Names;
    ok, rpath, dest := true, rpath0, dest0;
    ghost var held := rpath[..dest];
    assert held[dest - 1] == rpath[dest - 1];
    if rpath[dest - 1] != '/' {
      SlashMissing(held, stack);
      rpath[dest] := '/';
      dest := dest + 1;
      assert rpath[..dest] == held + "/";
    } else {
      SlashPresent(held, stack);
    }
    assert rpath[..dest] == Slashed(stack);
    if dest + |c| >= rpath.Length {
      var size := rpath.Length;
      if |c| + 1 > PATH_MAX {
        size := size + |c| + 1;
      } else {
        size := size + PATH_MAX;
      }
      if !canAllocate(size) {
        return false, rpath, dest;
      }
      rpath := Grow(rpath, dest, size);
    }
    dest := CopyName(rpath, dest, c);
    rpath[dest] := '\0';
    PushHolds(stack, c);
  }

  method SkipSlashes(name: string, start0: nat) returns (start: nat)
    requires start0 <= |name|
    ensures start0 <= start <= |name| && (start < |name| ==> name[start] != '/')
    ensures Components(name[start..]) == Components(name[start0..])
  {
    start := start0;
    while start < |name| && name[start] == '/'
      invariant start0 <= start <= |name|
      invariant Components(name[start..]) == Components(name[start0..])
    {
      assert name[start..][1..] == name[start + 1..];
      start := start + 1;
    }
  }

  // One component taken off the front.
  lemma OneMore(stack: seq<string>, s: string, start: nat, end: nat)
    requires start < end <= |s| && s[start] != '/' && end == start + Head(s[start..])
    ensures IsComponent(s[start..end])
    ensures PushAll(stack, Components(s[start..])) == PushAll(Push(stack, s[start..end]), Components(s[end..]))
  {
    hide Head, Push;
    var t := s[start..];
    NextComponent(t);
    assert t[..Head(t)] == s[start..end] && t[Head(t)..] == s[end..];
    assert ([s[start..end]] + Components(s[end..]))[1..] == Components(s[end..]);
  }

  lemma PushKeepsNames(stack: seq<string>, c: string)
    requires Names(stack) && IsComponent(c)
    ensures Names(Push(stack, c))
  {
  }

  // The trailing slash goes, and the string is ended.
  method Finish(rpath: array<char>, dest: nat, ghost stack: seq<string>) returns (s: string)
    requires 1 <= dest < rpath.Length && Holds(rpath[..dest], stack) && Names(stack)
    modifies rpath
    ensures s == Render(stack)
  {
    hide Render, Slashed, Holds, Names;
    var last := dest;
    ghost var held := rpath[..dest];
    assert held[dest - 1] == rpath[dest - 1];
    if dest > 1 && rpath[dest - 1] == '/' {
      SlashPresent(held, stack);
      last := dest - 1;
      assert rpath[..last] == held[..last];
    } else {
      NoSlash(held, stack);
    }
    rpath[last] := '\0';
    return rpath[..last];
  }

  // name is the C string up to its NUL, None is NULL; cwd is what getcwd finds; canAllocate says whether an
  // allocation of a given size succeeds. Every write stays inside the buffer of the moment.
  method Run(name: Option<string>, cwd: string, canAllocate: nat -> bool) returns (r: Outcome)
    requires cwd == Render(Components(cwd)) && Names(Components(cwd))
    ensures name == None ==> r == InvalidArgument
    ensures name == Some("") ==> r == NoEntry
    ensures r.Path? ==> name.Some? && r.s == Normalized(cwd, name.value)
    ensures name.Some? && name.value != "" ==> r.Path? || r == OutOfMemory || r == NoCwd
    ensures r == NoCwd ==> name.Some? && name.value[..1] != "/" && |cwd| >= PATH_MAX
    ensures r == OutOfMemory ==> exists n :: !canAllocate(n)
  {
    hide Slashed, Components, Head;
    if name == None {
      return InvalidArgument;
    }
    var s := name.value;
    if s == "" {
      return NoEntry;
    }
    if !canAllocate(PATH_MAX) {
      return OutOfMemory;
    }
    if s[0] != '/' && |cwd| + 1 > PATH_MAX {
      return NoCwd;
    }
    RenderStarts(Components(cwd));
    var rpath, dest := StartBuffer(s[0] == '/', if s[0] == '/' then "/" else cwd);
    ghost var stack := if s[0] == '/' then [] else Components(cwd);
    ghost var goal := PushAll(stack, Components(s));
    hide Render, Holds, Names, PushAll;
    var start, end := 0, 0;
    assert s[0..] == s;
    while start < |s|
      invariant 0 <= start <= |s|
      invariant 1 <= dest < rpath.Length && fresh(rpath)
      invariant Holds(rpath[..dest], stack) && Names(stack)
      invariant PushAll(stack, Components(s[start..])) == goal
      decreases |s| - start
    {
      start := SkipSlashes(s, start);
      end := FindEnd(s, start);
      if end - start == 0 {
        NoHead(s[start..]);
        break;
      }
      OneMore(stack, s, start, end);
      var c := s[start..end];
      PushKeepsNames(stack, c);
      if c == "." {
        // nothing
      } else if c == ".." {
        dest := Pop(rpath, dest, stack);
      } else {
        var ok: bool;
        ok, rpath, dest := Append(rpath, dest, c, canAllocate, stack);
        if !ok {
          return OutOfMemory;
        }
      }
      stack := Push(stack, c);
      start := end;
    }
    assert s[start..] == [];
    NoComponents(stack);
    var path := Finish(rpath, dest, stack);
    return Path(path);
  }

  // Behind skipped slashes an empty component is the end of the string.
  lemma NoHead(t: string)
    requires Head(t) == 0 && (t == [] || t[0] != '/')
    ensures t == []
  {
  }

  lemma RenderStarts(stack: seq<string>)
    ensures Render(stack) != [] && Render(stack)[0] == '/'
  {
    if stack != [] {
      assert |Slashed(stack)| > 1;
    }
  }

  lemma NoComponents(stack: seq<string>)
    ensures PushAll(stack, Components([])) == stack
  {
  }

  lemma NotRoot(s: string, stack: seq<string>)
    requires Holds(s, stack) && |s| > 1
    ensures stack != []
  {
  }

  lemma RootOnly(s: string, stack: seq<string>)
    requires Holds(s, stack) && |s| <= 1 && Names(stack)
    ensures stack == []
  {
    if stack != [] {
      PopHolds(s, stack);
    }
  }

  lemma SlashMissing(s: string, stack: seq<string>)
    requires Holds(s, stack) && s != [] && s[|s| - 1] != '/'
    ensures s + "/" == Slashed(stack)
  {
  }

  lemma SlashPresent(s: string, stack: seq<string>)
    requires Holds(s, stack) && s != [] && s[|s| - 1] == '/' && Names(stack)
    ensures s == Slashed(stack) && (|s| > 1 ==> s[..|s| - 1] == Render(stack))
  {
    if stack != [] {
      var p, c := Slashed(stack[..|stack| - 1]), stack[|stack| - 1];
      assert Render(stack) == p + c;
      assert (p + c)[|p + c| - 1] == c[|c| - 1];
    }
  }

  lemma NoSlash(s: string, stack: seq<string>)
    requires Holds(s, stack) && s != [] && (|s| == 1 || s[|s| - 1] != '/')
    ensures s == Render(stack)
  {
    if stack != [] {
      assert |Slashed(stack)| > 1;
    }
  }
}
