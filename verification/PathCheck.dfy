/** `detail::is_valid_path`: the guard of static-file serving. */
module PathCheck {
  import opened Text
  import opened Splitter

  // ---- naive resolution ----

  function NonEmpty(ps: seq<string>): seq<string> {
    if ps == [] then [] else (if ps[0] == "" then [] else [ps[0]]) + NonEmpty(ps[1..])
  }

  /** The components of a path: the non-empty pieces between slashes. */
  function Components(path: string): seq<string> {
    NonEmpty(Pieces(path, "/"))
  }

  /** Resolving components on a stack of directories; None when `..` meets an empty one. */
  function Resolve(stack: seq<string>, components: seq<string>): Option<seq<string>>
    decreases |components|
  {
    if components == [] then Some(stack)
    else if components[0] == "." then Resolve(stack, components[1..])
    else if components[0] == ".." then
      if stack == [] then None else Resolve(stack[..|stack| - 1], components[1..])
    else Resolve(stack + [components[0]], components[1..])
  }

  /** No NUL, no backslash, and no `..` that climbs above where the path starts. */
  predicate ValidPath(path: string) {
    '\0' !in path && '\\' !in path && Resolve([], Components(path)).Some?
  }

  // ---- the program ----

  /** The depth of the stack alone. */
  function Depth(level: nat, components: seq<string>): Option<nat>
    decreases |components|
  {
    if components == [] then Some(level)
    else if components[0] == "." then Depth(level, components[1..])
    else if components[0] == ".." then
      if level == 0 then None else Depth(level - 1, components[1..])
    else Depth(level + 1, components[1..])
  }

  lemma {:induction false} DepthIsStack(stack: seq<string>, components: seq<string>)
    ensures Depth(|stack|, components) == match Resolve(stack, components) case None => None case Some(s) => Some(|s|)
    decreases |components|
  {
    if components != [] {
      if components[0] == "." {
        DepthIsStack(stack, components[1..]);
      } else if components[0] == ".." {
        if stack != [] { DepthIsStack(stack[..|stack| - 1], components[1..]); }
      } else {
        DepthIsStack(stack + [components[0]], components[1..]);
      }
    }
  }

  lemma {:induction false} DepthStep(level: nat, c: string, rest: seq<string>)
    ensures Depth(level, [c] + rest) == if c == "." then Depth(level, rest)
      else if c != ".." then Depth(level + 1, rest)
      else if level == 0 then None
      else Depth(level - 1, rest)
  {
    assert ([c] + rest)[1..] == rest;
  }

  lemma {:induction false} DepthOfNothing(level: nat)
    ensures Depth(level, []) == Some(level)
  {
  }

  lemma {:induction false} ComponentsSlash(path: string)
    requires path != "" && path[0] == '/'
    ensures Components(path) == Components(path[1..])
  {
    hide FindFrom;
    assert path[0..1] == "/";
    FindFirst(path, "/", Some(0));
    assert ([path[..0]] + Pieces(path[1..], "/"))[1..] == Pieces(path[1..], "/");
  }

  lemma {:induction false} ComponentsCut(path: string, n: nat)
    requires 0 < n <= |path| && '/' !in path[..n] && (n < |path| ==> path[n] == '/')
    ensures Components(path) == [path[..n]] + Components(path[n..])
  {
    hide FindFrom;
    LacksChar(path[..n], '/');
    if n < |path| {
      FindAfter(path[..n], "/", path[n + 1..]);
      assert path == path[..n] + "/" + path[n + 1..];
      var rest := Pieces(path[n + 1..], "/");
      assert ([path[..n]] + rest)[1..] == rest;
      ComponentsSlash(path[n..]);
      assert path[n..][1..] == path[n + 1..];
    } else {
      assert path[..n] == path && path[n..] == "";
      assert [path][1..] == [] && NonEmpty([path]) == [path];
      assert Pieces(path, "/") == [path];
      ComponentsNothing();
    }
  }

  lemma {:induction false} ComponentsNothing()
    ensures Components("") == []
  {
    FindFirst("", "/", None);
    assert [""][1..] == [];
  }

  /** `is_valid_path`: one index, one counter, two nested loops. */
  method IsValidPath(path: string) returns (valid: bool)
    ensures valid == ValidPath(path)
  {
    hide Components, Depth, Resolve;
    var level := 0;
    var i := SkipSlashes(path, 0);
    DepthIsStack([], Components(path));
    assert path[0..] == path;
    while i < |path|
      invariant i <= |path| && (i < |path| ==> path[i] != '/')
      invariant '\0' !in path[..i] && '\\' !in path[..i]
      invariant Depth(level, Components(path[i..])) == Depth(0, Components(path))
    {
      var beg := i;
      while i < |path| && path[i] != '/'
        invariant beg <= i <= |path|
        invariant '/' !in path[beg..i]
        invariant '\0' !in path[..i] && '\\' !in path[..i]
      {
        if path[i] == '\0' || path[i] == '\\' {
          return false;
        }
        i := i + 1;
      }
      var component := path[beg..i];
      ComponentsCut(path[beg..], i - beg);
      assert path[beg..][..i - beg] == component && path[beg..][i - beg..] == path[i..];
      DepthStep(level, component, Components(path[i..]));
      if component == "." {
      } else if component == ".." {
        if level == 0 {
          return false;
        }
        level := level - 1;
      } else {
        level := level + 1;
      }
      i := SkipSlashes(path, i);
    }
    ComponentsNothing();
    DepthOfNothing(level);
    assert path[i..] == "" && path[..i] == path;
    return true;
  }

  method SkipSlashes(path: string, from: nat) returns (i: nat)
    requires from <= |path|
    ensures from <= i <= |path| && (i < |path| ==> path[i] != '/')
    ensures forall j | from <= j < i :: path[j] == '/'
    ensures Components(path[i..]) == Components(path[from..])
  {
    hide Components;
    i := from;
    while i < |path| && path[i] == '/'
      invariant from <= i <= |path|
      invariant forall j | from <= j < i :: path[j] == '/'
      invariant Components(path[i..]) == Components(path[from..])
    {
      ComponentsSlash(path[i..]);
      assert path[i..][1..] == path[i + 1..];
      i := i + 1;
    }
  }

  // ---- confinement ----

  /** Resolving below a base, component by component, never leaves the base. */
  ghost predicate StaysInside(base: seq<string>, components: seq<string>) {
    forall k | 0 <= k <= |components| ::
      var r := Resolve(base, components[..k]);
      r.Some? && base <= r.value
  }

  lemma {:induction false} ResolveOn(base: seq<string>, stack: seq<string>, components: seq<string>)
    ensures Resolve(stack, components).Some? ==> Resolve(base + stack, components) == Some(base + Resolve(stack, components).value)
    decreases |components|
  {
    if components != [] {
      if components[0] == "." {
        ResolveOn(base, stack, components[1..]);
      } else if components[0] == ".." {
        if stack != [] {
          assert (base + stack)[..|base + stack| - 1] == base + stack[..|stack| - 1];
          ResolveOn(base, stack[..|stack| - 1], components[1..]);
        }
      } else {
        assert (base + stack) + [components[0]] == base + (stack + [components[0]]);
        ResolveOn(base, stack + [components[0]], components[1..]);
      }
    }
  }

  lemma {:induction false} ResolvePrefix(stack: seq<string>, components: seq<string>, k: nat)
    requires k <= |components| && Resolve(stack, components).Some?
    ensures Resolve(stack, components[..k]).Some?
    decreases |components|
  {
    if k > 0 {
      assert components[..k][1..] == components[1..][..k - 1];
      if components[0] == "." {
        ResolvePrefix(stack, components[1..], k - 1);
      } else if components[0] == ".." {
        ResolvePrefix(stack[..|stack| - 1], components[1..], k - 1);
      } else {
        ResolvePrefix(stack + [components[0]], components[1..], k - 1);
      }
    }
  }

  /** Where a resolution that climbs too far first does so. */
  lemma {:induction false} Escape(base: seq<string>, stack: seq<string>, components: seq<string>) returns (k: nat)
    requires base != [] && Resolve(stack, components).None?
    ensures k <= |components| && Resolve(base + stack, components[..k]) == Some(base[..|base| - 1])
    decreases |components|
  {
    if components[0] == "." {
      k := Escape(base, stack, components[1..]);
    } else if components[0] == ".." {
      if stack == [] {
        assert base + stack == base;
        assert components[..1][0] == ".." && components[..1][1..] == [];
        return 1;
      }
      assert (base + stack)[..|base + stack| - 1] == base + stack[..|stack| - 1];
      k := Escape(base, stack[..|stack| - 1], components[1..]);
    } else {
      assert (base + stack) + [components[0]] == base + (stack + [components[0]]);
      k := Escape(base, stack + [components[0]], components[1..]);
    }
    k := k + 1;
    assert components[..k][1..] == components[1..][..k - 1];
  }

  /** A path is confined exactly when it resolves on its own: below any directory, no
      stretch of it leaves that directory if and only if `..` never meets an empty stack. */
  lemma {:induction false} ValidPathIsConfined(path: string, base: seq<string>)
    requires base != []
    ensures ValidPath(path) <==> '\0' !in path && '\\' !in path && StaysInside(base, Components(path))
  {
    hide Components;
    var cs := Components(path);
    assert base + [] == base;
    if Resolve([], cs).Some? {
      forall k | 0 <= k <= |cs|
        ensures Resolve(base, cs[..k]).Some? && base <= Resolve(base, cs[..k]).value
      {
        ResolvePrefix([], cs, k);
        ResolveOn(base, [], cs[..k]);
      }
    } else {
      var k := Escape(base, [], cs);
      assert !(base <= base[..|base| - 1]);
    }
  }

  // ---- told without a stack ----

  /** Twice the `..` and once the `.` among some components. */
  function Weight(components: seq<string>): nat {
    2 * multiset(components)[".."] + multiset(components)["."]
  }

  /** Nowhere along the components are there more `..` than names and `spare`, `.` aside. */
  predicate NeverAbove(components: seq<string>, spare: int) {
    forall k | 0 <= k <= |components| :: Weight(components[..k]) <= k + spare
  }

  lemma {:induction false} NeverAboveStep(components: seq<string>, spare: nat)
    requires components != []
    ensures NeverAbove(components, spare) <==>
      NeverAbove(components[1..], if components[0] == "." then spare else if components[0] == ".." then spare - 1 else spare + 1)
  {
    var c, rest := components[0], components[1..];
    var n := if c == "." then spare else if c == ".." then spare - 1 else spare + 1;
    forall k | 0 <= k <= |rest| ensures Weight(components[..k + 1]) <= k + 1 + spare <==> Weight(rest[..k]) <= k + n {
      assert components[..k + 1] == [c] + rest[..k];
    }
    assert components[..0] == [];
    if NeverAbove(components, spare) {
      forall k | 0 <= k <= |rest| ensures Weight(rest[..k]) <= k + n {
        assert Weight(components[..k + 1]) <= k + 1 + spare;
      }
    }
    if NeverAbove(rest, n) {
      forall k | 0 < k <= |components| ensures Weight(components[..k]) <= k + spare {
        assert Weight(rest[..k - 1]) <= k - 1 + n;
      }
    }
  }

  /** Resolving on a stack fails exactly when some stretch from the start has more `..` than
      names and directories on the stack. */
  lemma {:induction false} ResolveCounts(stack: seq<string>, components: seq<string>)
    ensures Resolve(stack, components).Some? <==> NeverAbove(components, |stack|)
    decreases |components|
  {
    hide NeverAbove;
    if components == [] {
      assert NeverAbove([], |stack|) by { NothingAbove(|stack|); }
    } else {
      NeverAboveStep(components, |stack|);
      if components[0] == "." {
        ResolveCounts(stack, components[1..]);
      } else if components[0] != ".." {
        ResolveCounts(stack + [components[0]], components[1..]);
      } else if stack != [] {
        ResolveCounts(stack[..|stack| - 1], components[1..]);
      } else {
        BelowZero(components[1..]);
      }
    }
  }

  lemma {:induction false} NothingAbove(spare: nat)
    ensures NeverAbove([], spare)
  {
  }

  lemma {:induction false} BelowZero(components: seq<string>)
    ensures !NeverAbove(components, -1)
  {
    assert Weight(components[..0]) >= 0;
  }

  /** A path is valid if and only if it has no NUL and no backslash, and never climbs above
      where it starts. */
  lemma {:induction false} ValidPathCounts(path: string)
    ensures ValidPath(path) <==> '\0' !in path && '\\' !in path && NeverAbove(Components(path), 0)
  {
    hide Components, Resolve;
    ResolveCounts([], Components(path));
  }

  /** The components are what stands between slashes, however many there are. */
  lemma {:induction false} ComponentsOfJoin(ps: seq<string>)
    requires ps != [] && forall i | 0 <= i < |ps| :: '/' !in ps[i]
    ensures Components(Join(ps, "/")) == NonEmpty(ps)
    ensures "" !in NonEmpty(ps) && forall p: string :: p != "" ==> multiset(NonEmpty(ps))[p] == multiset(ps)[p]
  {
    hide Join, Pieces;
    PiecesJoin(ps, '/');
    NonEmptyIs(ps);
  }

  lemma {:induction false} NonEmptyIs(ps: seq<string>)
    ensures "" !in NonEmpty(ps) && forall p: string :: p != "" ==> multiset(NonEmpty(ps))[p] == multiset(ps)[p]
  {
    if ps != [] {
      NonEmptyIs(ps[1..]);
      assert ps == [ps[0]] + ps[1..];
    }
  }
}
