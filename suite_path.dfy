/** `calculate_ts_parent_path`: the path of a test suite's parent directory relative to the
    root suite, built by walking the suite's chain of parents. */
module SuitePath {
  import Text

  /** A test suite: its name and its parent suite (null for the root). The ghost fields give
      the names of all ancestors, nearest parent first, and the distance to the root. */
  class Suite {
    const name: string
    const parent: Suite?
    ghost const Ancestry: seq<string>
    ghost const Depth: nat

    ghost predicate Valid()
      decreases Depth
    {
      if parent == null then Ancestry == [] && Depth == 0
      else
        Depth == parent.Depth + 1 && Ancestry == [parent.name] + parent.Ancestry && parent.Valid()
    }

    constructor (name: string, parent: Suite?)
      requires parent != null ==> parent.Valid()
      ensures Valid() && this.name == name && this.parent == parent
      ensures Ancestry == if parent == null then [] else [parent.name] + parent.Ancestry
    {
      this.name := name;
      this.parent := parent;
      if parent == null {
        Ancestry, Depth := [], 0;
      } else {
        Ancestry, Depth := [parent.name] + parent.Ancestry, parent.Depth + 1;
      }
    }
  }

  predicate EndsWith(s: string, suffix: string)
  {
    |s| >= |suffix| && s[|s| - |suffix|..] == suffix
  }

  /** No component starts with `/`. */
  predicate NoneAbsolute(components: seq<string>)
  {
    forall i :: 0 <= i < |components| ==> !(|components[i]| > 0 && components[i][0] == '/')
  }

  /** One step of POSIX `os.path.join`: an absolute component replaces the path so far;
      otherwise a `/` is inserted unless the path is empty or already ends in one. */
  function JoinStep(path: string, component: string): (r: string)
    ensures EndsWith(r, component)
    ensures |component| > 0 && component[0] == '/' ==> r == component
    ensures !(|component| > 0 && component[0] == '/') ==> |r| >= |path| && r[..|path|] == path
  {
    if |component| > 0 && component[0] == '/' then component
    else if path == [] || path[|path| - 1] == '/' then path + component
    else path + "/" + component
  }

  /** Joining ends with the last component and, when no component is absolute, starts with the path. */
  function JoinRest(path: string, components: seq<string>): (r: string)
    ensures components != [] ==> EndsWith(r, components[|components| - 1])
    ensures NoneAbsolute(components) ==> |r| >= |path| && r[..|path|] == path
    decreases |components|
  {
    if components == [] then path else JoinRest(JoinStep(path, components[0]), components[1..])
  }

  /** POSIX `os.path.join(*components)` for at least one component. */
  function PathJoin(components: seq<string>): (r: string)
    requires |components| >= 1
    ensures EndsWith(r, components[|components| - 1])
    ensures NoneAbsolute(components[1..]) ==> |r| >= |components[0]| && r[..|components[0]|] == components[0]
  {
    JoinRest(components[0], components[1..])
  }

  function Reversed(s: seq<string>): (r: seq<string>)
    ensures |r| == |s|
    ensures forall i :: 0 <= i < |s| ==> r[i] == s[|s| - 1 - i]
  {
    if s == [] then [] else Reversed(s[1..]) + [s[0]]
  }

  /** The value `calculate_ts_parent_path` returns for a suite whose ancestors, nearest parent
      first, have the names `ancestry`. */
  function ParentPath(ancestry: seq<string>): (r: string)
    ensures '\\' !in r
    ensures ancestry == [] ==> r == ""
    ensures ancestry != [] ==> EndsWith(r, Text.Replace(ancestry[0], '\\', '/'))
  {
    if ancestry == [] then ""
    else
      var joined := PathJoin(Reversed(ancestry));
      ReplaceSuffix(joined, ancestry[0]);
      Text.Replace(joined, '\\', '/')
  }

  lemma ReplaceSuffix(s: string, suffix: string)
    requires EndsWith(s, suffix)
    ensures EndsWith(Text.Replace(s, '\\', '/'), Text.Replace(suffix, '\\', '/'))
  {
    var r, rs := Text.Replace(s, '\\', '/'), Text.Replace(suffix, '\\', '/');
    var d := |s| - |suffix|;
    forall i | 0 <= i < |suffix| ensures r[d..][i] == rs[i] {
      assert s[d + i] == suffix[i];
    }
  }

  method CalculateTsParentPath(suite: Suite) returns (path: string)
    requires suite.Valid()
    ensures path == ParentPath(suite.Ancestry)
    ensures '\\' !in path
  {
    var familyTree: seq<string> := [];
    if suite.parent == null {
      assert suite.Ancestry == [];
      return "";
    }
    var current: Suite? := suite.parent;
    while current != null
      invariant current != null ==> current.Valid()
      invariant suite.Ancestry == familyTree + if current == null then [] else [current.name] + current.Ancestry
      decreases if current == null then 0 else current.Depth + 1
    {
      familyTree := familyTree + [current.name];
      current := current.parent;
    }
    assert familyTree == suite.Ancestry;
    path := Text.Replace(PathJoin(Reversed(familyTree)), '\\', '/');
  }

  /** A name `os.path.join` appends after exactly one `/`. */
  predicate PlainName(name: string)
  {
    name != [] && name[0] != '/' && name[|name| - 1] != '/'
  }

  /** With plain names, joining continues the path with `/` and the remaining components. */
  lemma {:induction false} JoinRestPlain(path: string, components: seq<string>)
    requires PlainName(path)
    requires forall i :: 0 <= i < |components| ==> PlainName(components[i])
    ensures JoinRest(path, components) == Text.Join([path] + components, '/')
    decreases |components|
  {
    if components != [] {
      var next := JoinStep(path, components[0]);
      assert next == path + "/" + components[0];
      JoinRestPlain(next, components[1..]);
      assert Text.Join([next] + components[1..], '/') == path + "/" + Text.Join(components, '/') by {
        JoinPrefix(path, components[0], components[1..]);
      }
      assert ([path] + components)[1..] == components;
    }
  }

  lemma {:induction false} JoinPrefix(a: string, b: string, rest: seq<string>)
    ensures Text.Join([a + "/" + b] + rest, '/') == a + "/" + Text.Join([b] + rest, '/')
  {
    if rest != [] {
      assert ([a + "/" + b] + rest)[1..] == rest;
      assert ([b] + rest)[1..] == rest;
    }
  }

  /** With non-empty names that neither start nor end with `/`, the path is the ancestors'
      names from the root down to the immediate parent, joined with `/`, backslashes replaced. */
  lemma ParentPathJoinsNames(ancestry: seq<string>)
    requires ancestry != []
    requires forall i :: 0 <= i < |ancestry| ==> PlainName(ancestry[i])
    ensures ParentPath(ancestry) == Text.Replace(Text.Join(Reversed(ancestry), '/'), '\\', '/')
  {
    var names := Reversed(ancestry);
    JoinRestPlain(names[0], names[1..]);
    assert [names[0]] + names[1..] == names;
  }

  /** The path of a suite's child extends the suite's own path by the suite's name: the
      immediate parent comes last and the suite whose path is computed does not appear. */
  lemma ParentPathExtends(name: string, ancestry: seq<string>)
    requires ancestry != []
    requires PlainName(name) && forall i :: 0 <= i < |ancestry| ==> PlainName(ancestry[i])
    ensures ParentPath([name] + ancestry) == ParentPath(ancestry) + "/" + Text.Replace(name, '\\', '/')
  {
    var child := [name] + ancestry;
    var names := Reversed(ancestry);
    var joined := Text.Join(names, '/');
    assert child[1..] == ancestry;
    assert Reversed(child) == names + [name];
    assert forall i :: 0 <= i < |child| ==> PlainName(child[i]) by {
      forall i | 0 <= i < |child| ensures PlainName(child[i]) {
        if i > 0 { assert child[i] == ancestry[i - 1]; }
      }
    }
    ParentPathJoinsNames(child);
    ParentPathJoinsNames(ancestry);
    Text.JoinSnoc(names, name, '/');
    ReplaceAroundSlash(joined, name);
  }

  lemma ReplaceAroundSlash(a: string, b: string)
    ensures Text.Replace(a + "/" + b, '\\', '/') == Text.Replace(a, '\\', '/') + "/" + Text.Replace(b, '\\', '/')
  {
    Text.ReplaceConcat(a + "/", b, '\\', '/');
    Text.ReplaceConcat(a, "/", '\\', '/');
  }

  /** With names free of both slashes, splitting the path on `/` gives back exactly the
      ancestors' names, root first. */
  lemma ParentPathSplits(ancestry: seq<string>)
    requires ancestry != []
    requires forall i :: 0 <= i < |ancestry| ==> ancestry[i] != [] && '/' !in ancestry[i] && '\\' !in ancestry[i]
    ensures Text.Split(ParentPath(ancestry), '/') == Reversed(ancestry)
  {
    var names := Reversed(ancestry);
    forall i | 0 <= i < |ancestry| ensures PlainName(ancestry[i]) {
      SlashFreeIsPlain(ancestry[i]);
    }
    forall i | 0 <= i < |names| ensures '/' !in names[i] && '\\' !in names[i] {
      assert names[i] == ancestry[|ancestry| - 1 - i];
    }
    var joined := Text.Join(names, '/');
    ParentPathJoinsNames(ancestry);
    Text.JoinAbsent(names, '/', '\\');
    Text.ReplaceAbsent(joined, '\\', '/');
    assert ParentPath(ancestry) == joined;
    Text.SplitJoin(names, '/');
  }

  lemma SlashFreeIsPlain(name: string)
    requires name != [] && '/' !in name
    ensures PlainName(name)
  {
    assert name[0] in name && name[|name| - 1] in name;
  }

  /** The path is empty exactly for a suite without a parent, when names are non-empty. */
  lemma {:induction false} ParentPathEmpty(ancestry: seq<string>)
    requires forall i :: 0 <= i < |ancestry| ==> ancestry[i] != []
    ensures ParentPath(ancestry) == "" <==> ancestry == []
  {
    if ancestry != [] {
      var names := Reversed(ancestry);
      JoinRestNonEmpty(names[0], names[1..]);
    }
  }

  /** Joining non-empty components gives a non-empty path. */
  lemma {:induction false} JoinRestNonEmpty(path: string, components: seq<string>)
    requires path != []
    requires forall i :: 0 <= i < |components| ==> components[i] != []
    ensures JoinRest(path, components) != []
    decreases |components|
  {
    if components != [] {
      JoinRestNonEmpty(JoinStep(path, components[0]), components[1..]);
    }
  }
}
