/** The places of a tree of generated files, and the sums of a scan as numbers of places. */
module GeneratedOutputPlaces {
  import opened GeneratedOutput
  import opened Options

  /** Where an entry stands: which child of the root, which child of that, and so on. Two entries
      of a directory are at two places whatever their names. */
  type Place = seq<nat>

  function EntryAt(children: seq<Child>, parent: string, depth: nat, place: Place): Option<Found>
    decreases place
  {
    if place == [] || place[0] >= |children| then None
    else
      var child := children[place[0]];
      var path := Relative(parent, child.name);
      if place[1..] == [] then Some(Found(path, depth, child.entry))
      else if child.entry.Directory? then EntryAt(child.entry.children, path, depth + 1, place[1..])
      else None
  }

  predicate IsPicked(found: Option<Found>, pick: Found -> bool) { found.Some? && pick(found.value) }

  /** The places of a child, from the child itself, whose entries are picked. */
  function PickedIn(child: Child, parent: string, depth: nat, pick: Found -> bool): set<Place>
    decreases child, 0
  {
    var path := Relative(parent, child.name);
    (if pick(Found(path, depth, child.entry)) then {[]} else {})
    + (if child.entry.Directory? then Picked(child.entry.children, path, depth + 1, pick) else {})
  }

  function Inside(place: Place): Place { [0] + place }

  function Next(place: Place): Place { if place == [] then [] else [place[0] + 1] + place[1..] }

  /** The places below a directory whose entries are picked. */
  function Picked(children: seq<Child>, parent: string, depth: nat, pick: Found -> bool): (places: set<Place>)
    ensures [] !in places
    decreases children, 1
  {
    if children == [] then {}
    else
      var first, rest := PickedIn(children[0], parent, depth, pick), Picked(children[1..], parent, depth, pick);
      (set p | p in first :: Inside(p)) + (set p | p in rest :: Next(p))
  }

  lemma NextUndone(place: Place)
    requires place != [] && place[0] > 0
    ensures Next([place[0] - 1] + place[1..]) == place
  {
    var previous := [place[0] - 1] + place[1..];
    assert previous[1..] == place[1..] && [place[0]] + place[1..] == place;
  }

  lemma NextEntry(children: seq<Child>, parent: string, depth: nat, place: Place)
    requires children != [] && place != []
    ensures EntryAt(children, parent, depth, Next(place)) == EntryAt(children[1..], parent, depth, place)
  {
    assert Next(place)[1..] == place[1..];
  }

  /** Exactly the places whose entries are picked. */
  lemma {:induction false} PickedMembers(children: seq<Child>, parent: string, depth: nat, pick: Found -> bool,
                                         place: Place)
    ensures place in Picked(children, parent, depth, pick)
        <==> IsPicked(EntryAt(children, parent, depth, place), pick)
    decreases children, 1
  {
    if children != [] && place != [] {
      var first, rest := PickedIn(children[0], parent, depth, pick), Picked(children[1..], parent, depth, pick);
      if place[0] == 0 {
        assert Inside(place[1..]) == place;
        PickedInMembers(children, parent, depth, pick, place);
        assert place in Picked(children, parent, depth, pick) <==> place[1..] in first;
      } else {
        var previous := [place[0] - 1] + place[1..];
        NextUndone(place);
        NextEntry(children, parent, depth, previous);
        PickedMembers(children[1..], parent, depth, pick, previous);
        assert forall p :: p in rest && Next(p) == place ==> p == previous by {
          forall p | p in rest && Next(p) == place ensures p == previous {
            NextIsInjective(p, previous);
          }
        }
        assert place in Picked(children, parent, depth, pick) <==> previous in rest;
      }
    }
  }

  lemma {:induction false} PickedInMembers(children: seq<Child>, parent: string, depth: nat, pick: Found -> bool,
                                           place: Place)
    requires children != [] && place != [] && place[0] == 0
    ensures place[1..] in PickedIn(children[0], parent, depth, pick)
        <==> IsPicked(EntryAt(children, parent, depth, place), pick)
    decreases children, 0
  {
    var child := children[0];
    if child.entry.Directory? && place[1..] != [] {
      PickedMembers(child.entry.children, Relative(parent, child.name), depth + 1, pick, place[1..]);
    }
  }

  lemma NextIsInjective(p: Place, q: Place)
    requires p != [] && q != [] && Next(p) == Next(q)
    ensures p == q
  {
    assert p == [p[0]] + p[1..] && q == [q[0]] + q[1..];
    assert Next(p)[0] == Next(q)[0] && Next(p)[1..] == Next(q)[1..];
    assert p[1..] == Next(p)[1..] && q[1..] == Next(q)[1..];
  }

  lemma InsideIsInjective(p: Place, q: Place)
    requires Inside(p) == Inside(q)
    ensures p == q
  {
    assert Inside(p)[1..] == p && Inside(q)[1..] == q;
  }

  /** A set and its image under an injective function are of one size. */
  lemma {:induction false} ImageSize(s: set<Place>, f: Place -> Place, image: set<Place>)
    requires forall x, y :: x in s && y in s && f(x) == f(y) ==> x == y
    requires forall x :: x in s ==> f(x) in image
    requires forall y :: y in image ==> exists x :: x in s && f(x) == y
    ensures |image| == |s|
    decreases |s|
  {
    if s == {} {
      assert image == {};
    } else {
      var x :| x in s;
      ImageSize(s - {x}, f, image - {f(x)});
    }
  }

  lemma InsideSize(places: set<Place>)
    ensures |set p | p in places :: Inside(p)| == |places|
  {
    forall p, q | p in places && q in places && Inside(p) == Inside(q) ensures p == q {
      InsideIsInjective(p, q);
    }
    ImageSize(places, Inside, set p | p in places :: Inside(p));
  }

  lemma NextSize(places: set<Place>)
    requires [] !in places
    ensures |set p | p in places :: Next(p)| == |places|
  {
    forall p, q | p in places && q in places && Next(p) == Next(q) ensures p == q {
      NextIsInjective(p, q);
    }
    ImageSize(places, Next, set p | p in places :: Next(p));
  }

  lemma DisjointSize(first: set<Place>, rest: set<Place>)
    requires [] !in rest
    ensures |(set p | p in first :: Inside(p)) + (set p | p in rest :: Next(p))| == |first| + |rest|
  {
    var a, b := set p | p in first :: Inside(p), set p | p in rest :: Next(p);
    forall p | p in a ensures p !in b {
      var q :| q in first && p == Inside(q);
      assert p[0] == 0;
    }
    InsideSize(first);
    NextSize(rest);
    assert a !! b;
  }

  /** Places are counted child by child. */
  lemma PickedSize(children: seq<Child>, parent: string, depth: nat, pick: Found -> bool)
    requires children != []
    ensures |Picked(children, parent, depth, pick)|
         == |PickedIn(children[0], parent, depth, pick)| + |Picked(children[1..], parent, depth, pick)|
  {
    DisjointSize(PickedIn(children[0], parent, depth, pick), Picked(children[1..], parent, depth, pick));
  }

  lemma PickedInSize(child: Child, parent: string, depth: nat, pick: Found -> bool)
    ensures var path := Relative(parent, child.name);
            |PickedIn(child, parent, depth, pick)|
            == (if pick(Found(path, depth, child.entry)) then 1 else 0)
             + (if child.entry.Directory? then |Picked(child.entry.children, path, depth + 1, pick)| else 0)
  {
    if child.entry.Directory? {
      var below := Picked(child.entry.children, Relative(parent, child.name), depth + 1, pick);
      assert {[]} !! below;
    }
  }

  // ------------------------------------------------------------------ all entries

  function Places(children: seq<Child>, parent: string, depth: nat): set<Place> {
    Picked(children, parent, depth, (f: Found) => true)
  }

  lemma PlacesAreAll(children: seq<Child>, parent: string, depth: nat, place: Place)
    ensures place in Places(children, parent, depth) <==> EntryAt(children, parent, depth, place).Some?
  {
    PickedMembers(children, parent, depth, (f: Found) => true, place);
  }

  /** What a scan counts is the number of places. */
  lemma {:induction false} CountIsPlaces(children: seq<Child>, parent: string, depth: nat, manifest: Manifest,
                                         directories: set<string>)
    ensures OfChildren(children, parent, depth, manifest, directories).count == |Places(children, parent, depth)|
    decreases children
  {
    if children != [] {
      var child := children[0];
      PickedSize(children, parent, depth, (f: Found) => true);
      PickedInSize(child, parent, depth, (f: Found) => true);
      if child.entry.Directory? {
        CountIsPlaces(child.entry.children, Relative(parent, child.name), depth + 1, manifest, directories);
      }
      CountIsPlaces(children[1..], parent, depth, manifest, directories);
    }
  }

  // ------------------------------------------------------------------ entries of one alias

  function OutputsOf(manifest: Manifest, alias: string): Found -> bool {
    (f: Found) => IsOutput(f, manifest) && manifest.alias(f.path) == alias
  }

  lemma {:induction false} AliasesArePlaces(children: seq<Child>, parent: string, depth: nat, manifest: Manifest,
                                            directories: set<string>, alias: string)
    ensures OfChildren(children, parent, depth, manifest, directories).aliases[alias]
         == |Picked(children, parent, depth, OutputsOf(manifest, alias))|
    decreases children
  {
    if children != [] {
      var child := children[0];
      PickedSize(children, parent, depth, OutputsOf(manifest, alias));
      PickedInSize(child, parent, depth, OutputsOf(manifest, alias));
      if child.entry.Directory? {
        AliasesArePlaces(child.entry.children, Relative(parent, child.name), depth + 1, manifest, directories, alias);
      }
      AliasesArePlaces(children[1..], parent, depth, manifest, directories, alias);
    }
  }

  /** The alias of the output file at a place, if there is one. */
  function AliasAt(root: seq<Child>, manifest: Manifest, place: Place): Option<string> {
    match EntryAt(root, "", 0, place)
    case None => None
    case Some(found) => if IsOutput(found, manifest) then Some(manifest.alias(found.path)) else None
  }

  /** No two places hold output files of one alias. */
  ghost predicate AliasesDiffer(root: seq<Child>, manifest: Manifest) {
    forall p, q :: p != q && AliasAt(root, manifest, p).Some? ==>
      AliasAt(root, manifest, p) != AliasAt(root, manifest, q)
  }

  lemma AliasMembers(root: seq<Child>, manifest: Manifest, alias: string, place: Place)
    ensures place in Picked(root, "", 0, OutputsOf(manifest, alias)) <==> AliasAt(root, manifest, place) == Some(alias)
  {
    PickedMembers(root, "", 0, OutputsOf(manifest, alias), place);
  }

  lemma TwoMembers<T>(s: set<T>)
    ensures |s| > 1 <==> exists p, q :: p in s && q in s && p != q
  {
    if |s| > 1 {
      var p :| p in s;
      assert |s - {p}| > 0;
      var q :| q in s - {p};
    }
    if p, q :| p in s && q in s && p != q {
      assert s == {p, q} + (s - {p, q});
      assert |s| == |{p, q}| + |s - {p, q}|;
    }
  }

  /** What a scan finds to clash is two places with output files of one alias. */
  lemma ClashIsTwoPlaces(root: seq<Child>, manifest: Manifest, directories: set<string>)
    ensures OfChildren(root, "", 0, manifest, directories).HasClash() <==> !AliasesDiffer(root, manifest)
  {
    var whole := OfChildren(root, "", 0, manifest, directories);
    if whole.HasClash() {
      var a :| a in whole.aliases && whole.aliases[a] > 1;
      AliasesArePlaces(root, "", 0, manifest, directories, a);
      TwoMembers(Picked(root, "", 0, OutputsOf(manifest, a)));
      var p, q :| p in Picked(root, "", 0, OutputsOf(manifest, a))
               && q in Picked(root, "", 0, OutputsOf(manifest, a)) && p != q;
      AliasMembers(root, manifest, a, p);
      AliasMembers(root, manifest, a, q);
    }
    if !AliasesDiffer(root, manifest) {
      var p, q :| p != q && AliasAt(root, manifest, p).Some?
               && AliasAt(root, manifest, p) == AliasAt(root, manifest, q);
      var a := AliasAt(root, manifest, p).value;
      AliasMembers(root, manifest, a, p);
      AliasMembers(root, manifest, a, q);
      TwoMembers(Picked(root, "", 0, OutputsOf(manifest, a)));
      AliasesArePlaces(root, "", 0, manifest, directories, a);
      assert a in whole.aliases && whole.aliases[a] > 1;
    }
  }
}
