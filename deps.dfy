/** Selection of the modules to time (lib/index.js, lines 55-59): the keys of
    `dependencies`, then those of `devDependencies` when `--dev` is given,
    without the `@types/` packages, added one by one to the `packages` Set. */
module Deps {
  import opened Ordered

  const TypesPrefix := "@types/"

  /** A manifest reduced to the key lists of its two dependency objects; a
      missing object is an empty list (`pkg.dependencies || {}`). */
  datatype Manifest = Manifest(dependencies: seq<string>, devDependencies: seq<string>)

  predicate StartsWith(s: string, prefix: string) {
    |prefix| <= |s| && s[..|prefix|] == prefix
  }

  /** What the filter keeps of one name. */
  function Keep(x: string): seq<string> {
    if StartsWith(x, TypesPrefix) then [] else [x]
  }

  /** `.filter(module => !module.startsWith('@types/'))`. */
  function DropTypes(names: seq<string>): seq<string> {
    if names == [] then [] else DropTypes(names[..|names| - 1]) + Keep(names[|names| - 1])
  }

  /** The filter keeps exactly the names outside `@types/`. */
  lemma {:induction false} DropTypesMembers(names: seq<string>)
    ensures forall x :: x in DropTypes(names) <==> x in names && !StartsWith(x, TypesPrefix)
  {
    if names != [] {
      var init := names[..|names| - 1];
      DropTypesMembers(init);
      assert names == init + [names[|names| - 1]];
    }
  }

  /** The names handed to `packages.add`, in order. */
  function Candidates(m: Manifest, useDev: bool): seq<string> {
    DropTypes(m.dependencies + (if useDev then m.devDependencies else []))
  }

  /** The contents of `packages` once every candidate has been added. */
  function Selected(m: Manifest, useDev: bool): seq<string> {
    AddAll([], Candidates(m, useDev))
  }

  lemma {:induction false} DropTypesConcat(a: seq<string>, b: seq<string>)
    ensures DropTypes(a + b) == DropTypes(a) + DropTypes(b)
  {
    if b == [] {
      assert a + b == a;
    } else {
      var init := b[..|b| - 1];
      var x := b[|b| - 1];
      DropTypesConcat(a, init);
      assert (a + b)[..|a + b| - 1] == a + init && (a + b)[|a + b| - 1] == x;
      calc {
        DropTypes(a + b);
        DropTypes(a + init) + Keep(x);
        DropTypes(a) + DropTypes(init) + Keep(x);
        DropTypes(a) + (DropTypes(init) + Keep(x));
        DropTypes(a) + DropTypes(b);
      }
    }
  }

  /** The module set: no duplicates, exactly the eligible names, no `@types/`
      package, names in first-seen order, and the eligible `dependencies` ahead
      of every name that only `devDependencies` declares. */
  lemma SelectedSpec(m: Manifest, useDev: bool)
    ensures var p := Selected(m, useDev);
      && Distinct(p)
      && (forall x :: x in p <==>
            (x in m.dependencies || (useDev && x in m.devDependencies)) && !StartsWith(x, TypesPrefix))
      && (forall i, j :: 0 <= i < j < |p| ==>
            IndexOf(Candidates(m, useDev), p[i]) < IndexOf(Candidates(m, useDev), p[j]))
      && var own := AddAll([], DropTypes(m.dependencies));
         |own| <= |p| && p[..|own|] == own
  {
    var c := Candidates(m, useDev);
    DropTypesMembers(m.dependencies + (if useDev then m.devDependencies else []));
    AddAllDistinct([], c);
    AddAllMembers([], c);
    AddAllFirstSeen(c);
    var extra := if useDev then m.devDependencies else [];
    DropTypesConcat(m.dependencies, extra);
    AddAllConcat([], DropTypes(m.dependencies), DropTypes(extra));
    AddAllKeepsPrefix(AddAll([], DropTypes(m.dependencies)), DropTypes(extra));
  }
}
