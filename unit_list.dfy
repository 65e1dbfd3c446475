/**
 * The unit listing of koozie/koozie.py (`get_unit_list`): registry names
 * grouped by the text of their dimensionality, each group holding the
 * canonical units with their aliases and the declared dimensions that
 * reduce to that dimensionality, ordered by the length of the group key.
 *
 * Python's insertion-ordered dicts are a `Listing` (keys in insertion
 * order plus a map) and, inside a group, `unitNames` plus `units`.
 */
module UnitList {
  import opened Koozie

  /** One value of the dict: `{"aliases": [...], "units": {unit: [aliases]}}`. */
  datatype Group = Group(aliases: seq<string>, unitNames: seq<string>, units: map<string, seq<string>>)

  /** The dict `unit_list`: keys in insertion order and the groups they map to. */
  datatype Listing = Listing(keys: seq<string>, groups: map<string, Group>)

  /** The entry a group starts out as: `{"aliases": [], "units": {}}`. */
  const EmptyGroup := Group([], [], map[])

  const EmptyListing := Listing([], map[])

  predicate Distinct(s: seq<string>)
  {
    forall i, j | 0 <= i < j < |s| :: s[i] != s[j]
  }

  /** The ordered units dict of a group is well formed. */
  ghost predicate ValidGroup(g: Group)
  {
    Distinct(g.unitNames) && forall c :: c in g.units <==> c in g.unitNames
  }

  /** The ordered dict of groups is well formed. */
  ghost predicate ValidListing(l: Listing)
  {
    && Distinct(l.keys)
    && (forall k :: k in l.groups <==> k in l.keys)
    && forall k | k in l.groups :: ValidGroup(l.groups[k])
  }

  /** The group key of a registry name: "[]" when dimensionless, else its dimensionality text. */
  function GroupKey(reg: Registry, u: string): string
  {
    if reg.dimensionless(u) then "[]" else reg.render(reg.dimensionality(u))
  }

  /** The group key of a declared dimension: the text of its reference's dimensionality. */
  function DimensionKey(reg: Registry, d: DimensionDecl): string
  {
    reg.render(reg.resolveReference(d.reference))
  }

  /** `unit_list[k]`, creating `{"aliases": [], "units": {}}` when k is not yet a key. */
  function Touch(l: Listing, k: string): (r: Listing)
  {
    if k in l.groups then l else Listing(l.keys + [k], l.groups[k := EmptyGroup])
  }

  /** One iteration of the first loop, for registry name u. */
  function AddName(reg: Registry, l: Listing, u: string): Listing
  {
    if !reg.isMember(u) then l
    else
      var k := GroupKey(reg, u);
      var l1 := Touch(l, k);
      var c := reg.canonical(u);
      var g := l1.groups[k];
      var g1 := if c in g.units then g else g.(unitNames := g.unitNames + [c], units := g.units[c := []]);
      var g2 := if u != c then g1.(units := g1.units[c := g1.units[c] + [u]]) else g1;
      l1.(groups := l1.groups[k := g2])
  }

  /** The listing after the first loop has gone over `names`. */
  function GroupNames(reg: Registry, names: seq<string>): (l: Listing)
    ensures ValidListing(l)
    decreases |names|
  {
    if names == [] then EmptyListing
    else
      var prev := GroupNames(reg, names[..|names| - 1]);
      AddNameValid(reg, prev, names[|names| - 1]);
      AddName(reg, prev, names[|names| - 1])
  }

  /** One iteration of the second loop, for declared dimension d. */
  function AddDimension(reg: Registry, l: Listing, d: DimensionDecl): Listing
  {
    if d.name in l.groups then l
    else
      var k := DimensionKey(reg, d);
      var l1 := Touch(l, k);
      var g := l1.groups[k];
      l1.(groups := l1.groups[k := g.(aliases := g.aliases + [d.name])])
  }

  /** The listing after the second loop has gone over `dims`, starting from l. */
  function AddDimensions(reg: Registry, l: Listing, dims: seq<DimensionDecl>): (r: Listing)
    requires ValidListing(l)
    ensures ValidListing(r)
    decreases |dims|
  {
    if dims == [] then l
    else
      var prev := AddDimensions(reg, l, dims[..|dims| - 1]);
      AddDimensionValid(reg, prev, dims[|dims| - 1]);
      AddDimension(reg, prev, dims[|dims| - 1])
  }

  /** The dict `unit_list` just before it is sorted. */
  function UnitListing(reg: Registry): (l: Listing)
    ensures ValidListing(l)
  {
    AddDimensions(reg, GroupNames(reg, reg.names), reg.dimensions)
  }

  /** `unit_list.items()`, in insertion order. */
  function Items(l: Listing): (r: seq<(string, Group)>)
    requires ValidListing(l)
    ensures |r| == |l.keys|
    ensures forall i | 0 <= i < |r| :: r[i].0 == l.keys[i] && r[i].1 == l.groups[l.keys[i]]
  {
    seq(|l.keys|, i requires 0 <= i < |l.keys| => (l.keys[i], l.groups[l.keys[i]]))
  }

  // ---------------------------------------------------------------------
  // Stable sort by key length: `sorted(items, key=lambda x: len(x[0]))`
  // ---------------------------------------------------------------------

  predicate SortedByKeyLength(s: seq<(string, Group)>)
  {
    forall i, j | 0 <= i < j < |s| :: |s[i].0| <= |s[j].0|
  }

  /** The items of s whose key has length n, in their order in s. */
  function WithKeyLength(s: seq<(string, Group)>, n: nat): seq<(string, Group)>
  {
    if s == [] then []
    else (if |s[0].0| == n then [s[0]] else []) + WithKeyLength(s[1..], n)
  }

  /** Puts x in front of the first item whose key is at least as long as x's. */
  function InsertByKeyLength(x: (string, Group), s: seq<(string, Group)>): (r: seq<(string, Group)>)
    ensures multiset(r) == multiset(s) + multiset{x}
    ensures |r| == |s| + 1 && (r[0] == x || (|s| > 0 && r[0] == s[0]))
  {
    if s == [] || |x.0| <= |s[0].0| then [x] + s
    else
      assert s == [s[0]] + s[1..];
      [s[0]] + InsertByKeyLength(x, s[1..])
  }

  lemma {:induction false} InsertKeepsSorted(x: (string, Group), s: seq<(string, Group)>)
    requires SortedByKeyLength(s)
    ensures SortedByKeyLength(InsertByKeyLength(x, s))
  {
    if s != [] && |x.0| > |s[0].0| {
      var rest := InsertByKeyLength(x, s[1..]);
      InsertKeepsSorted(x, s[1..]);
      assert |s[0].0| <= |rest[0].0|;
      var r := [s[0]] + rest;
      forall i, j | 0 <= i < j < |r| ensures |r[i].0| <= |r[j].0| {
        if i == 0 {
          assert r[j] == rest[j - 1];
          if j > 1 { assert |rest[0].0| <= |rest[j - 1].0|; }
        } else {
          assert r[i] == rest[i - 1] && r[j] == rest[j - 1];
        }
      }
    }
  }

  /** The stable sort by key length. */
  function SortByKeyLength(s: seq<(string, Group)>): (r: seq<(string, Group)>)
    ensures multiset(r) == multiset(s)
    ensures SortedByKeyLength(r)
  {
    if s == [] then []
    else
      assert s == [s[0]] + s[1..];
      InsertKeepsSorted(s[0], SortByKeyLength(s[1..]));
      InsertByKeyLength(s[0], SortByKeyLength(s[1..]))
  }

  lemma {:induction false} InsertKeepsKeyLengthOrder(x: (string, Group), s: seq<(string, Group)>, n: nat)
    ensures WithKeyLength(InsertByKeyLength(x, s), n) ==
      (if |x.0| == n then [x] else []) + WithKeyLength(s, n)
  {
    if s == [] || |x.0| <= |s[0].0| {
      assert ([x] + s)[1..] == s;
    } else {
      InsertKeepsKeyLengthOrder(x, s[1..], n);
      var r := InsertByKeyLength(x, s[1..]);
      assert ([s[0]] + r)[1..] == r;
      if |s[0].0| == n {
        assert |x.0| != n;
        assert WithKeyLength(s, n) == [s[0]] + WithKeyLength(s[1..], n);
      } else {
        assert WithKeyLength(s, n) == WithKeyLength(s[1..], n);
      }
    }
  }

  /** Stability: items with keys of equal length keep their relative order. */
  lemma {:induction false} SortIsStable(s: seq<(string, Group)>, n: nat)
    ensures WithKeyLength(SortByKeyLength(s), n) == WithKeyLength(s, n)
  {
    if s != [] {
      SortIsStable(s[1..], n);
      InsertKeepsKeyLengthOrder(s[0], SortByKeyLength(s[1..]), n);
    }
  }

  // ---------------------------------------------------------------------
  // The listing builder
  // ---------------------------------------------------------------------

  /**
   * `get_unit_list`: the groups of `UnitListing(reg)`, stably sorted by key length.
   */
  function SortedListing(reg: Registry): (r: seq<(string, Group)>)
    ensures SortedByKeyLength(r)
    ensures multiset(r) == multiset(Items(UnitListing(reg)))
    ensures AllGroupsValid(r)
  {
    SortedItemsValid(UnitListing(reg));
    SortByKeyLength(Items(UnitListing(reg)))
  }

  /** Every group of a sequence of items is a well-formed ordered units dict. */
  ghost predicate AllGroupsValid(items: seq<(string, Group)>)
  {
    forall i | 0 <= i < |items| :: ValidGroup(items[i].1)
  }

  lemma SortedItemsValid(l: Listing)
    requires ValidListing(l)
    ensures AllGroupsValid(SortByKeyLength(Items(l)))
  {
    var r := SortByKeyLength(Items(l));
    forall i | 0 <= i < |r| ensures ValidGroup(r[i].1) {
      assert r[i] in multiset(Items(l));
      var n :| 0 <= n < |Items(l)| && Items(l)[n] == r[i];
    }
  }

  /** The first loop of `get_unit_list`: group the registry's names. */
  method GroupRegistryNames(reg: Registry) returns (keys: seq<string>, groups: map<string, Group>)
    ensures Listing(keys, groups) == GroupNames(reg, reg.names)
  {
    keys, groups := [], map[];
    var i := 0;
    while i < |reg.names|
      invariant 0 <= i <= |reg.names|
      invariant Listing(keys, groups) == GroupNames(reg, reg.names[..i])
    {
      var u := reg.names[i];
      assert reg.names[..i + 1][..i] == reg.names[..i];
      ghost var next := AddName(reg, Listing(keys, groups), u);
      assert GroupNames(reg, reg.names[..i + 1]) == next;
      if reg.isMember(u) {
        var dimensionality := GroupKey(reg, u);
        if dimensionality !in groups {
          keys := keys + [dimensionality];
          groups := groups[dimensionality := Group([], [], map[])];
        }
        assert Listing(keys, groups) == Touch(GroupNames(reg, reg.names[..i]), dimensionality);
        var unit := reg.canonical(u);
        var group := groups[dimensionality];
        if unit !in group.units {
          group := group.(unitNames := group.unitNames + [unit], units := group.units[unit := []]);
        }
        if u != unit {
          group := group.(units := group.units[unit := group.units[unit] + [u]]);
        }
        groups := groups[dimensionality := group];
      }
      i := i + 1;
    }
    assert reg.names[..i] == reg.names;
  }

  /** The second loop of `get_unit_list`: attach the declared dimensions as dimension aliases. */
  method AttachDimensionAliases(reg: Registry, keys0: seq<string>, groups0: map<string, Group>)
    returns (keys: seq<string>, groups: map<string, Group>)
    requires ValidListing(Listing(keys0, groups0))
    ensures Listing(keys, groups) == AddDimensions(reg, Listing(keys0, groups0), reg.dimensions)
  {
    keys, groups := keys0, groups0;
    ghost var first := Listing(keys0, groups0);
    var j := 0;
    while j < |reg.dimensions|
      invariant 0 <= j <= |reg.dimensions|
      invariant Listing(keys, groups) == AddDimensions(reg, first, reg.dimensions[..j])
    {
      var dim := reg.dimensions[j];
      assert reg.dimensions[..j + 1][..j] == reg.dimensions[..j];
      ghost var before := Listing(keys, groups);
      ghost var next := AddDimension(reg, before, dim);
      assert AddDimensions(reg, first, reg.dimensions[..j + 1]) == next;
      if dim.name !in groups {
        var dimensionality := DimensionKey(reg, dim);
        if dimensionality !in groups {
          keys := keys + [dimensionality];
          groups := groups[dimensionality := Group([], [], map[])];
        }
        assert Listing(keys, groups) == Touch(before, dimensionality);
        var group := groups[dimensionality];
        groups := groups[dimensionality := group.(aliases := group.aliases + [dim.name])];
        assert Listing(keys, groups) == next;
      }
      j := j + 1;
    }
    assert reg.dimensions[..j] == reg.dimensions;
  }

  /** `get_unit_list`: build the dict in two loops, then sort its items by key length. */
  method GetUnitList(reg: Registry) returns (items: seq<(string, Group)>)
    ensures items == SortedListing(reg)
  {
    var keys, groups := GroupRegistryNames(reg);
    keys, groups := AttachDimensionAliases(reg, keys, groups);
    items := SortByKeyLength(Items(Listing(keys, groups)));
  }

  // ---------------------------------------------------------------------
  // Well-formedness
  // ---------------------------------------------------------------------

  lemma TouchValid(l: Listing, k: string)
    requires ValidListing(l)
    ensures ValidListing(Touch(l, k)) && k in Touch(l, k).groups
  {
    if k !in l.groups {
      var r := Touch(l, k);
      assert ValidGroup(EmptyGroup);
      forall i, j | 0 <= i < j < |r.keys| ensures r.keys[i] != r.keys[j] {
        if j == |l.keys| { assert r.keys[i] == l.keys[i] && r.keys[i] in l.groups; }
      }
    }
  }

  lemma AddNameValid(reg: Registry, l: Listing, u: string)
    requires ValidListing(l)
    ensures ValidListing(AddName(reg, l, u))
  {
    if reg.isMember(u) {
      var k := GroupKey(reg, u);
      TouchValid(l, k);
      var l1 := Touch(l, k);
      var c := reg.canonical(u);
      var g := l1.groups[k];
      var g1 := if c in g.units then g else g.(unitNames := g.unitNames + [c], units := g.units[c := []]);
      if c !in g.units {
        AddUnitValid(g, c);
      }
      var g2 := if u != c then g1.(units := g1.units[c := g1.units[c] + [u]]) else g1;
      assert ValidGroup(g2);
      SetGroupValid(l1, k, g2);
    }
  }

  /** `group["units"][c] = []` for a new unit c keeps the units dict well formed. */
  lemma AddUnitValid(g: Group, c: string)
    requires ValidGroup(g) && c !in g.units
    ensures ValidGroup(g.(unitNames := g.unitNames + [c], units := g.units[c := []]))
  {
    var g1 := g.(unitNames := g.unitNames + [c], units := g.units[c := []]);
    forall i, j | 0 <= i < j < |g1.unitNames| ensures g1.unitNames[i] != g1.unitNames[j] {
      if j == |g.unitNames| { assert g1.unitNames[i] == g.unitNames[i] && g.unitNames[i] in g.units; }
    }
  }

  /** Replacing an existing group by a well-formed one keeps the dict well formed. */
  lemma SetGroupValid(l: Listing, k: string, g: Group)
    requires ValidListing(l) && k in l.groups && ValidGroup(g)
    ensures ValidListing(l.(groups := l.groups[k := g]))
  {
  }

  lemma AddDimensionValid(reg: Registry, l: Listing, d: DimensionDecl)
    requires ValidListing(l)
    ensures ValidListing(AddDimension(reg, l, d))
  {
    if d.name !in l.groups {
      TouchValid(l, DimensionKey(reg, d));
    }
  }

  // ---------------------------------------------------------------------
  // The first loop: what each group holds
  // ---------------------------------------------------------------------

  /** Registry name u passes the membership filter and falls in group k. */
  predicate InGroup(reg: Registry, u: string, k: string)
  {
    reg.isMember(u) && GroupKey(reg, u) == k
  }

  /** Registry name u falls in group k with canonical unit c. */
  predicate HasCanonical(reg: Registry, u: string, k: string, c: string)
  {
    InGroup(reg, u, k) && reg.canonical(u) == c
  }

  /** Registry name u is recorded as an alias of canonical unit c in group k. */
  predicate IsAliasOf(reg: Registry, u: string, k: string, c: string)
  {
    HasCanonical(reg, u, k, c) && u != c
  }

  /** The names recorded as aliases of unit c in group k, in registry order. */
  function AliasesOf(reg: Registry, names: seq<string>, k: string, c: string): seq<string>
    decreases |names|
  {
    if names == [] then []
    else
      var u := names[|names| - 1];
      AliasesOf(reg, names[..|names| - 1], k, c) + (if IsAliasOf(reg, u, k, c) then [u] else [])
  }

  /** What one iteration of the first loop does to group k and its unit c. */
  lemma AddNameStep(reg: Registry, l: Listing, u: string, k: string, c: string)
    ensures k in AddName(reg, l, u).groups <==> k in l.groups || InGroup(reg, u, k)
    ensures k in AddName(reg, l, u).groups ==>
      AddName(reg, l, u).groups[k].aliases == (if k in l.groups then l.groups[k].aliases else [])
    ensures k in AddName(reg, l, u).groups ==>
      (c in AddName(reg, l, u).groups[k].units <==>
        (k in l.groups && c in l.groups[k].units) || HasCanonical(reg, u, k, c))
    ensures k in AddName(reg, l, u).groups && c in AddName(reg, l, u).groups[k].units ==>
      AddName(reg, l, u).groups[k].units[c] ==
        (if k in l.groups && c in l.groups[k].units then l.groups[k].units[c] else []) +
        (if IsAliasOf(reg, u, k, c) then [u] else [])
  {
  }

  /** A group exists exactly when some member name has that group key. */
  lemma {:induction false} GroupNamesKeys(reg: Registry, names: seq<string>, k: string)
    ensures k in GroupNames(reg, names).groups <==>
      exists j | 0 <= j < |names| :: InGroup(reg, names[j], k)
    decreases |names|
  {
    if names != [] {
      var init, u := names[..|names| - 1], names[|names| - 1];
      GroupNamesKeys(reg, init, k);
      AddNameStep(reg, GroupNames(reg, init), u, k, "");
      assert forall j | 0 <= j < |init| :: init[j] == names[j];
      if exists j | 0 <= j < |names| :: InGroup(reg, names[j], k) {
        var j :| 0 <= j < |names| && InGroup(reg, names[j], k);
        if j < |init| { assert InGroup(reg, init[j], k); }
      }
    }
  }

  /** The first loop never adds a dimension alias. */
  lemma {:induction false} GroupNamesNoDimensionAliases(reg: Registry, names: seq<string>, k: string)
    requires k in GroupNames(reg, names).groups
    ensures GroupNames(reg, names).groups[k].aliases == []
    decreases |names|
  {
    if names != [] {
      var init := names[..|names| - 1];
      AddNameStep(reg, GroupNames(reg, init), names[|names| - 1], k, "");
      if k in GroupNames(reg, init).groups {
        GroupNamesNoDimensionAliases(reg, init, k);
      }
    }
  }

  /** Unit c is an entry of group k exactly when some member name of group k has canonical unit c. */
  lemma {:induction false} GroupNamesUnitKeys(reg: Registry, names: seq<string>, k: string, c: string)
    requires k in GroupNames(reg, names).groups
    ensures c in GroupNames(reg, names).groups[k].units <==>
      exists j | 0 <= j < |names| :: HasCanonical(reg, names[j], k, c)
    decreases |names|
  {
    var init, u := names[..|names| - 1], names[|names| - 1];
    assert forall j | 0 <= j < |init| :: init[j] == names[j];
    GroupNamesKeys(reg, init, k);
    AddNameStep(reg, GroupNames(reg, init), u, k, c);
    if k in GroupNames(reg, init).groups {
      GroupNamesUnitKeys(reg, init, k, c);
      if exists j | 0 <= j < |names| :: HasCanonical(reg, names[j], k, c) {
        var j :| 0 <= j < |names| && HasCanonical(reg, names[j], k, c);
        if j < |init| { assert HasCanonical(reg, init[j], k, c); }
      }
    } else {
      forall j | 0 <= j < |init| ensures !HasCanonical(reg, names[j], k, c) {
        assert !InGroup(reg, init[j], k);
      }
    }
  }

  /** No name of `names` has canonical unit c in group k: c has no aliases there. */
  lemma {:induction false} AliasesOfNone(reg: Registry, names: seq<string>, k: string, c: string)
    requires forall j | 0 <= j < |names| :: !HasCanonical(reg, names[j], k, c)
    ensures AliasesOf(reg, names, k, c) == []
    decreases |names|
  {
    if names != [] {
      var init := names[..|names| - 1];
      assert forall j | 0 <= j < |init| :: init[j] == names[j];
      AliasesOfNone(reg, init, k, c);
    }
  }

  /** The alias list of unit c in group k is exactly the registry names recorded as its aliases. */
  lemma {:induction false} GroupNamesUnitAliases(reg: Registry, names: seq<string>, k: string, c: string)
    requires k in GroupNames(reg, names).groups
    requires c in GroupNames(reg, names).groups[k].units
    ensures GroupNames(reg, names).groups[k].units[c] == AliasesOf(reg, names, k, c)
    decreases |names|
  {
    var init, u := names[..|names| - 1], names[|names| - 1];
    var prev := GroupNames(reg, init);
    AddNameStep(reg, prev, u, k, c);
    if k in prev.groups && c in prev.groups[k].units {
      GroupNamesUnitAliases(reg, init, k, c);
    } else {
      // c became an entry of group k for u, the last name
      assert HasCanonical(reg, u, k, c);
      assert forall j | 0 <= j < |init| :: init[j] == names[j];
      GroupNamesKeys(reg, init, k);
      if k in prev.groups {
        GroupNamesUnitKeys(reg, init, k, c);
      } else {
        forall j | 0 <= j < |init| ensures !HasCanonical(reg, init[j], k, c) {
          assert !InGroup(reg, init[j], k);
        }
      }
      AliasesOfNone(reg, init, k, c);
    }
  }

  /** Every recorded alias of c is a member name of group k with canonical unit c, other than c. */
  lemma {:induction false} AliasesOfSound(reg: Registry, names: seq<string>, k: string, c: string)
    ensures forall a | a in AliasesOf(reg, names, k, c) :: a in names && IsAliasOf(reg, a, k, c)
    decreases |names|
  {
    if names != [] {
      var init := names[..|names| - 1];
      AliasesOfSound(reg, init, k, c);
      assert names == init + [names[|names| - 1]];
    }
  }

  /** No unit lists itself as one of its aliases. */
  lemma NoUnitIsItsOwnAlias(reg: Registry, names: seq<string>, k: string, c: string)
    requires k in GroupNames(reg, names).groups
    requires c in GroupNames(reg, names).groups[k].units
    ensures c !in GroupNames(reg, names).groups[k].units[c]
  {
    GroupNamesUnitAliases(reg, names, k, c);
    AliasesOfSound(reg, names, k, c);
  }

  // ---------------------------------------------------------------------
  // Groups are never reset
  // ---------------------------------------------------------------------

  /** g' is g with, at most, entries and list elements added at the end. */
  ghost predicate GroupExtends(g: Group, g': Group)
  {
    && g.aliases <= g'.aliases
    && g.unitNames <= g'.unitNames
    && forall c | c in g.units :: c in g'.units && g.units[c] <= g'.units[c]
  }

  /** l' keeps every key of l, in order, and extends every group of l. */
  ghost predicate Extends(l: Listing, l': Listing)
  {
    l.keys <= l'.keys && forall k | k in l.groups :: k in l'.groups && GroupExtends(l.groups[k], l'.groups[k])
  }

  lemma ExtendsTransitive(a: Listing, b: Listing, c: Listing)
    requires Extends(a, b) && Extends(b, c)
    ensures Extends(a, c)
  {
  }

  lemma AddNameExtends(reg: Registry, l: Listing, u: string)
    requires ValidListing(l)
    ensures Extends(l, AddName(reg, l, u))
  {
    if reg.isMember(u) {
      var k := GroupKey(reg, u);
      var l1 := Touch(l, k);
      TouchValid(l, k);
      TouchExtends(l, k);
      var c := reg.canonical(u);
      var g := l1.groups[k];
      var g1 := if c in g.units then g else g.(unitNames := g.unitNames + [c], units := g.units[c := []]);
      var g2 := if u != c then g1.(units := g1.units[c := g1.units[c] + [u]]) else g1;
      assert GroupExtends(g, g1);
      assert GroupExtends(g1, g2);
      SetGroupExtends(l1, k, g2);
      ExtendsTransitive(l, l1, AddName(reg, l, u));
    }
  }

  lemma TouchExtends(l: Listing, k: string)
    ensures Extends(l, Touch(l, k))
  {
  }

  /** Replacing a group by an extension of it extends the dict. */
  lemma SetGroupExtends(l: Listing, k: string, g: Group)
    requires k in l.groups && GroupExtends(l.groups[k], g)
    ensures Extends(l, l.(groups := l.groups[k := g]))
  {
  }

  lemma AddDimensionExtends(reg: Registry, l: Listing, d: DimensionDecl)
    requires ValidListing(l)
    ensures Extends(l, AddDimension(reg, l, d))
  {
  }

  /** Once the first loop has created a group or a unit entry, later names only append to it. */
  lemma {:induction false} GroupNamesExtends(reg: Registry, names: seq<string>, i: nat)
    requires i <= |names|
    ensures Extends(GroupNames(reg, names[..i]), GroupNames(reg, names))
    decreases |names|
  {
    if i == |names| {
      assert names[..i] == names;
    } else {
      var init := names[..|names| - 1];
      assert init[..i] == names[..i];
      GroupNamesExtends(reg, init, i);
      AddNameExtends(reg, GroupNames(reg, init), names[|names| - 1]);
      ExtendsTransitive(GroupNames(reg, names[..i]), GroupNames(reg, init), GroupNames(reg, names));
    }
  }

  /** Once the second loop has created or extended a group, later dimensions only append to it. */
  lemma {:induction false} AddDimensionsExtends(reg: Registry, l: Listing, dims: seq<DimensionDecl>, j: nat)
    requires ValidListing(l)
    requires j <= |dims|
    ensures Extends(AddDimensions(reg, l, dims[..j]), AddDimensions(reg, l, dims))
    decreases |dims|
  {
    if j == |dims| {
      assert dims[..j] == dims;
    } else {
      var init := dims[..|dims| - 1];
      assert init[..j] == dims[..j];
      AddDimensionsExtends(reg, l, init, j);
      AddDimensionExtends(reg, AddDimensions(reg, l, init), dims[|dims| - 1]);
      ExtendsTransitive(AddDimensions(reg, l, dims[..j]), AddDimensions(reg, l, init), AddDimensions(reg, l, dims));
    }
  }

  // ---------------------------------------------------------------------
  // The second loop: dimension aliases
  // ---------------------------------------------------------------------

  /** The dimension aliases group k has in l, none when k is not a key. */
  function AliasesIn(l: Listing, k: string): seq<string>
  {
    if k in l.groups then l.groups[k].aliases else []
  }

  /** The ordered unit names group k has in l, none when k is not a key. */
  function UnitNamesIn(l: Listing, k: string): seq<string>
  {
    if k in l.groups then l.groups[k].unitNames else []
  }

  /** The unit entries group k has in l, none when k is not a key. */
  function UnitsIn(l: Listing, k: string): map<string, seq<string>>
  {
    if k in l.groups then l.groups[k].units else map[]
  }

  /**
   * One iteration of the second loop: a dimension whose name is already a
   * key adds nothing; any other is appended to the aliases of the group of
   * its reference dimensionality, which is created if needed. No unit entry
   * changes.
   */
  lemma AddDimensionStep(reg: Registry, l: Listing, d: DimensionDecl, k: string)
    requires ValidListing(l)
    ensures d.name in l.groups ==> AddDimension(reg, l, d) == l
    ensures k in l.groups ==> k in AddDimension(reg, l, d).groups
    ensures AddDimension(reg, l, d).keys ==
      if d.name in l.groups || DimensionKey(reg, d) in l.groups then l.keys else l.keys + [DimensionKey(reg, d)]
    ensures k in AddDimension(reg, l, d).groups ==>
      && UnitNamesIn(AddDimension(reg, l, d), k) == UnitNamesIn(l, k)
      && UnitsIn(AddDimension(reg, l, d), k) == UnitsIn(l, k)
      && AliasesIn(AddDimension(reg, l, d), k) ==
           AliasesIn(l, k) + (if d.name !in l.groups && DimensionKey(reg, d) == k then [d.name] else [])
  {
  }

  /** Dimension d is declared in dims and its reference dimensionality has key k. */
  ghost predicate DeclaredFor(reg: Registry, dims: seq<DimensionDecl>, a: string, k: string)
  {
    exists j | 0 <= j < |dims| :: dims[j].name == a && DimensionKey(reg, dims[j]) == k
  }

  /** The second loop never removes a key. */
  lemma {:induction false} AddDimensionsKeepKeys(reg: Registry, l: Listing, dims: seq<DimensionDecl>, k: string)
    requires ValidListing(l)
    requires k in l.groups
    ensures k in AddDimensions(reg, l, dims).groups
    decreases |dims|
  {
    if dims != [] {
      AddDimensionsKeepKeys(reg, l, dims[..|dims| - 1], k);
      AddDimensionStep(reg, AddDimensions(reg, l, dims[..|dims| - 1]), dims[|dims| - 1], k);
    }
  }

  /** The second loop leaves every unit entry as it found it; groups it creates have none. */
  lemma {:induction false} AddDimensionsKeepUnits(reg: Registry, l: Listing, dims: seq<DimensionDecl>, k: string)
    requires ValidListing(l)
    ensures UnitNamesIn(AddDimensions(reg, l, dims), k) == UnitNamesIn(l, k)
    ensures UnitsIn(AddDimensions(reg, l, dims), k) == UnitsIn(l, k)
    decreases |dims|
  {
    if dims != [] {
      var init := dims[..|dims| - 1];
      AddDimensionsKeepUnits(reg, l, init, k);
      AddDimensionStep(reg, AddDimensions(reg, l, init), dims[|dims| - 1], k);
    }
  }

  /**
   * The second loop only appends dimension aliases, and each one it appends
   * to group k is the name of a declared dimension whose reference has key k,
   * and not a key the loop started with.
   */
  lemma {:induction false} AddDimensionsAliases(reg: Registry, l: Listing, dims: seq<DimensionDecl>, k: string)
    requires ValidListing(l)
    ensures AliasesIn(l, k) <= AliasesIn(AddDimensions(reg, l, dims), k)
    ensures forall n | |AliasesIn(l, k)| <= n < |AliasesIn(AddDimensions(reg, l, dims), k)| ::
      && DeclaredFor(reg, dims, AliasesIn(AddDimensions(reg, l, dims), k)[n], k)
      && AliasesIn(AddDimensions(reg, l, dims), k)[n] !in l.groups
    decreases |dims|
  {
    if dims != [] {
      var init, d := dims[..|dims| - 1], dims[|dims| - 1];
      var prev := AddDimensions(reg, l, init);
      var r := AddDimension(reg, prev, d);
      assert AddDimensions(reg, l, dims) == r;
      AddDimensionsAliases(reg, l, init, k);
      AddDimensionStep(reg, prev, d, k);
      var before, after := AliasesIn(prev, k), AliasesIn(r, k);
      var added := d.name !in prev.groups && DimensionKey(reg, d) == k;
      assert after == before + (if added then [d.name] else []) by {
        if k !in r.groups {
          assert k !in prev.groups;
        }
      }
      assert added ==> d.name !in l.groups by {
        if d.name in l.groups { AddDimensionsKeepKeys(reg, l, init, d.name); }
      }
      AppendedAliasesDeclared(reg, l, dims, k, |AliasesIn(l, k)|, before, added, after);
    }
  }

  /** One step of `AddDimensionsAliases`: the alias appended by dimension d is declared for k. */
  lemma AppendedAliasesDeclared(reg: Registry, l: Listing, dims: seq<DimensionDecl>,
                                k: string, m: nat, before: seq<string>, added: bool, after: seq<string>)
    requires |dims| > 0
    requires forall n | m <= n < |before| :: DeclaredFor(reg, dims[..|dims| - 1], before[n], k) && before[n] !in l.groups
    requires added ==> DimensionKey(reg, dims[|dims| - 1]) == k && dims[|dims| - 1].name !in l.groups
    requires after == before + (if added then [dims[|dims| - 1].name] else [])
    ensures forall n | m <= n < |after| :: DeclaredFor(reg, dims, after[n], k) && after[n] !in l.groups
  {
    var init, d := dims[..|dims| - 1], dims[|dims| - 1];
    forall n | m <= n < |after|
      ensures DeclaredFor(reg, dims, after[n], k) && after[n] !in l.groups
    {
      if n < |before| {
        assert after[n] == before[n];
        var j :| 0 <= j < |init| && init[j].name == before[n] && DimensionKey(reg, init[j]) == k;
        assert dims[j] == init[j];
      } else {
        assert after[n] == d.name;
        assert dims[|dims| - 1] == d;
      }
    }
  }

  /**
   * The converse of `AddDimensionsAliases`: a declared dimension whose name is
   * not a key when the loop reaches it ends up among the dimension aliases of
   * the group keyed by its reference dimensionality.
   */
  lemma AddDimensionsAttaches(reg: Registry, l: Listing, dims: seq<DimensionDecl>, j: nat)
    requires ValidListing(l)
    requires j < |dims|
    requires dims[j].name !in AddDimensions(reg, l, dims[..j]).groups
    ensures DimensionKey(reg, dims[j]) in AddDimensions(reg, l, dims).groups
    ensures dims[j].name in AliasesIn(AddDimensions(reg, l, dims), DimensionKey(reg, dims[j]))
  {
    var k := DimensionKey(reg, dims[j]);
    var prev := AddDimensions(reg, l, dims[..j]);
    assert dims[..j + 1][..j] == dims[..j];
    assert AddDimensions(reg, l, dims[..j + 1]) == AddDimension(reg, prev, dims[j]);
    AddDimensionStep(reg, prev, dims[j], k);
    AddDimensionsExtends(reg, l, dims, j + 1);
    assert dims[j].name in AliasesIn(AddDimensions(reg, l, dims[..j + 1]), k);
  }

  // ---------------------------------------------------------------------
  // The sorted listing
  // ---------------------------------------------------------------------

  lemma {:induction false} DistinctKeysOccurOnce(s: seq<(string, Group)>, x: (string, Group))
    requires forall i, j | 0 <= i < j < |s| :: s[i].0 != s[j].0
    ensures multiset(s)[x] <= 1
  {
    if s != [] {
      assert s == [s[0]] + s[1..];
      DistinctKeysOccurOnce(s[1..], x);
      if x == s[0] {
        assert x !in s[1..];
      }
    }
  }

  lemma TwiceInMultiset(s: seq<(string, Group)>, i: nat, j: nat)
    requires i < j < |s| && s[i] == s[j]
    ensures multiset(s)[s[i]] >= 2
  {
    assert s == s[..j] + s[j..];
    assert s[i] in multiset(s[..j]) && s[j] in multiset(s[j..]);
  }

  /** The sorted listing holds exactly the accumulated groups, each under its own key. */
  lemma UnitListEntries(reg: Registry, k: string, g: Group)
    ensures (k, g) in SortedListing(reg) <==>
      k in UnitListing(reg).groups && UnitListing(reg).groups[k] == g
  {
    var l := UnitListing(reg);
    var items := Items(l);
    assert (k, g) in SortedListing(reg) <==> (k, g) in multiset(items);
    if k in l.groups {
      var i :| 0 <= i < |l.keys| && l.keys[i] == k;
      assert items[i] == (k, l.groups[k]);
    }
  }

  /** Every key appears once in the sorted listing. */
  lemma UnitListKeysDistinct(reg: Registry)
    ensures forall i, j | 0 <= i < j < |SortedListing(reg)| :: SortedListing(reg)[i].0 != SortedListing(reg)[j].0
  {
    var r, items := SortedListing(reg), Items(UnitListing(reg));
    forall i, j | 0 <= i < j < |r| ensures r[i].0 != r[j].0 {
      if r[i].0 == r[j].0 {
        UnitListEntries(reg, r[i].0, r[i].1);
        UnitListEntries(reg, r[j].0, r[j].1);
        assert r[i] == r[j];
        TwiceInMultiset(r, i, j);
        DistinctKeysOccurOnce(items, r[i]);
        assert false;
      }
    }
  }

  /**
   * In the listing `get_unit_list` sorts, unit c is an entry of group k
   * exactly when some member name of group k has canonical unit c, and its
   * aliases are the registry names recorded for it, in registry order.
   */
  lemma UnitListingUnits(reg: Registry, k: string, c: string)
    requires k in UnitListing(reg).groups
    ensures c in UnitListing(reg).groups[k].units <==>
      exists j | 0 <= j < |reg.names| :: HasCanonical(reg, reg.names[j], k, c)
    ensures c in UnitListing(reg).groups[k].units ==>
      UnitListing(reg).groups[k].units[c] == AliasesOf(reg, reg.names, k, c)
  {
    var first := GroupNames(reg, reg.names);
    AddDimensionsKeepUnits(reg, first, reg.dimensions, k);
    if k in first.groups {
      GroupNamesUnitKeys(reg, reg.names, k, c);
      if c in first.groups[k].units {
        GroupNamesUnitAliases(reg, reg.names, k, c);
      }
    } else {
      GroupNamesKeys(reg, reg.names, k);
      forall j | 0 <= j < |reg.names| ensures !HasCanonical(reg, reg.names[j], k, c) {
        assert !InGroup(reg, reg.names[j], k);
      }
    }
  }

  /**
   * The groups of the first loop are exactly the dimensionality texts that
   * `get_dimensionality` gives the registry's names it resolves ("[]" for a
   * dimensionless one), and every such group is in the final dict.
   */
  lemma GroupKeysAreDimensionalities(reg: Registry, k: string)
    ensures k in GroupNames(reg, reg.names).groups <==>
      exists j | 0 <= j < |reg.names| ::
        && GetDimensionality(reg, reg.names[j]).Success?
        && k == (if reg.dimensionless(reg.names[j]) then "[]"
                 else reg.render(GetDimensionality(reg, reg.names[j]).value))
    ensures k in GroupNames(reg, reg.names).groups ==> k in UnitListing(reg).groups
  {
    var names := reg.names;
    GroupNamesKeys(reg, names, k);
    forall j | 0 <= j < |names|
      ensures InGroup(reg, names[j], k) <==>
        && GetDimensionality(reg, names[j]).Success?
        && k == (if reg.dimensionless(names[j]) then "[]" else reg.render(GetDimensionality(reg, names[j]).value))
    {
      assert names[j] in names;
    }
    if k in GroupNames(reg, names).groups {
      AddDimensionsKeepKeys(reg, GroupNames(reg, names), reg.dimensions, k);
    }
  }
}
