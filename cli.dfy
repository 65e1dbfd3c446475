/**
 * The `--list` callback of koozie/cli.py (`list_callback`): selects the
 * groups of the unit listing that match a filter and renders each as a
 * heading, an underline, one line per unit and a separator.
 *
 * Output is the sequence of messages passed to `click.echo`, one element
 * per call (echo itself adds the newline).
 */
module Cli {
  import opened Wrappers
  import opened Koozie
  import opened UnitList

  /** `sep.join(parts)`. */
  function Join(parts: seq<string>, sep: string): string
  {
    if |parts| == 0 then ""
    else if |parts| == 1 then parts[0]
    else parts[0] + sep + Join(parts[1..], sep)
  }

  /** `p` occurs in `s` starting at index i. */
  ghost predicate OccursAt(s: string, p: string, i: int)
  {
    0 <= i && i + |p| <= |s| && s[i..i + |p|] == p
  }

  /** Python's `p in s` on strings: p is a substring of s. */
  function Contains(s: string, p: string): (b: bool)
    ensures b <==> exists i :: OccursAt(s, p, i)
    decreases |s|
  {
    if p <= s then
      assert OccursAt(s, p, 0);
      true
    else if |s| == 0 then
      assert forall i :: !OccursAt(s, p, i);
      false
    else
      var b := Contains(s[1..], p);
      assert forall i :: OccursAt(s, p, i + 1) <==> OccursAt(s[1..], p, i) by {
        forall i ensures OccursAt(s, p, i + 1) <==> OccursAt(s[1..], p, i) {
          if 0 <= i && i + 1 + |p| <= |s| {
            assert s[i + 1..i + 1 + |p|] == s[1..][i..i + |p|];
          }
        }
      }
      assert !OccursAt(s, p, 0);
      assert (exists i :: OccursAt(s, p, i)) ==> exists i :: OccursAt(s[1..], p, i) by {
        if exists i :: OccursAt(s, p, i) {
          var i :| OccursAt(s, p, i);
          assert OccursAt(s[1..], p, i - 1);
        }
      }
      b
  }

  /** `f" ({', '.join(aliases)})"` when there are aliases, otherwise "". */
  function AliasSuffix(aliases: seq<string>): (r: string)
    ensures r == "" <==> aliases == []
  {
    if |aliases| > 0 then " (" + Join(aliases, ", ") + ")" else ""
  }

  /** The filter test of the listing: `value in dim or value == "*" or value in dim_aliases`. */
  predicate Selected(value: string, key: string, g: Group)
  {
    Contains(key, value) || value == "*" || Contains(AliasSuffix(g.aliases), value)
  }

  /** The heading of a group: its key followed by its alias suffix. */
  function Heading(key: string, g: Group): string
  {
    key + AliasSuffix(g.aliases)
  }

  /** `"-" * n`. */
  function Dashes(n: nat): (r: string)
    ensures |r| == n && forall i | 0 <= i < n :: r[i] == '-'
  {
    seq(n, _ => '-')
  }

  /** The line of one unit: `f"  - {unit}{aliases}"`. */
  function UnitLine(unit: string, aliases: seq<string>): string
  {
    "  - " + unit + AliasSuffix(aliases)
  }

  /** Every unit name of `g` has an entry in its units dict. */
  ghost predicate UnitsListed(g: Group)
  {
    forall i | 0 <= i < |g.unitNames| :: g.unitNames[i] in g.units
  }

  /** Every group of a sequence of items has an entry for each unit name. */
  ghost predicate AllUnitsListed(items: seq<(string, Group)>)
  {
    forall i | 0 <= i < |items| :: UnitsListed(items[i].1)
  }

  /** A well-formed group lists its units. */
  lemma ValidGroupsListUnits(items: seq<(string, Group)>)
    requires AllGroupsValid(items)
    ensures AllUnitsListed(items)
  {
    forall i, j | 0 <= i < |items| && 0 <= j < |items[i].1.unitNames|
      ensures items[i].1.unitNames[j] in items[i].1.units
    {
      assert ValidGroup(items[i].1);
    }
  }

  /** The lines of the first `n` units of `g`, in insertion order. */
  function UnitLines(g: Group, n: nat): seq<string>
    requires UnitsListed(g) && n <= |g.unitNames|
  {
    if n == 0 then []
    else
      var u := g.unitNames[n - 1];
      UnitLines(g, n - 1) + [UnitLine(u, g.units[u])]
  }

  /** Everything echoed for one selected group. */
  function GroupLines(key: string, g: Group): seq<string>
    requires UnitsListed(g)
  {
    [Heading(key, g), Dashes(|Heading(key, g)|)] + UnitLines(g, |g.unitNames|) + ["\n"]
  }

  /** Everything echoed for the groups of `items` that the filter selects, in order. */
  function RenderListing(value: string, items: seq<(string, Group)>): seq<string>
    requires AllUnitsListed(items)
    decreases |items|
  {
    if items == [] then []
    else
      var (key, g) := items[|items| - 1];
      RenderListing(value, items[..|items| - 1]) + (if Selected(value, key, g) then GroupLines(key, g) else [])
  }

  /** The echoes of one selected group: heading, underline, unit lines, separator. */
  method EchoGroup(dim: string, group: Group) returns (output: seq<string>)
    requires UnitsListed(group)
    ensures output == GroupLines(dim, group)
  {
    var dimAliases := AliasSuffix(group.aliases);
    var heading := dim + dimAliases;
    output := [heading];
    output := output + [Dashes(|heading|)];
    ghost var head := output;
    assert head == [Heading(dim, group), Dashes(|Heading(dim, group)|)];
    for j := 0 to |group.unitNames|
      invariant output == head + UnitLines(group, j)
    {
      var unit := group.unitNames[j];
      var aliases := AliasSuffix(group.units[unit]);
      ConcatAssoc(head, UnitLines(group, j), ["  - " + unit + aliases]);
      output := output + ["  - " + unit + aliases];
    }
    output := output + ["\n"];
  }

  /** The loop of `list_callback`: echo every group the filter selects, in listing order. */
  method EchoSelected(filter: string, unitList: seq<(string, Group)>) returns (output: seq<string>)
    requires AllUnitsListed(unitList)
    ensures output == RenderListing(filter, unitList)
  {
    output := [];
    for i := 0 to |unitList|
      invariant output == RenderListing(filter, unitList[..i])
    {
      assert unitList[..i + 1][..i] == unitList[..i];
      var (dim, group) := unitList[i];
      var dimAliases := AliasSuffix(group.aliases);
      if Contains(dim, filter) || filter == "*" || Contains(dimAliases, filter) {
        var lines := EchoGroup(dim, group);
        output := output + lines;
      }
    }
    assert unitList[..|unitList|] == unitList;
  }

  /** `list_callback`: whether it returns early, the echoed messages, and whether it calls `context.exit()`. */
  method ListCallback(reg: Registry, value: Option<string>, resilientParsing: bool)
    returns (output: seq<string>, exited: bool)
    ensures value.None? || value.value == "" || resilientParsing ==> output == [] && !exited
    ensures value.Some? && value.value != "" && !resilientParsing ==>
      AllUnitsListed(SortedListing(reg)) && exited && output == RenderListing(value.value, SortedListing(reg))
  {
    if value.None? || value.value == "" || resilientParsing {
      return [], false;
    }
    var unitList := GetUnitList(reg);
    ValidGroupsListUnits(unitList);
    output := EchoSelected(value.value, unitList);
    exited := true;
  }

  // ---------------------------------------------------------------------
  // Properties of the rendering
  // ---------------------------------------------------------------------

  /** The j-th unit line is that of the j-th unit name. */
  lemma {:induction false} UnitLinesAt(g: Group, n: nat)
    requires UnitsListed(g) && n <= |g.unitNames|
    ensures |UnitLines(g, n)| == n
    ensures forall j | 0 <= j < n :: UnitLines(g, n)[j] == UnitLine(g.unitNames[j], g.units[g.unitNames[j]])
  {
    if n > 0 {
      UnitLinesAt(g, n - 1);
      var before := UnitLines(g, n - 1);
      var lines := UnitLines(g, n);
      assert lines == before + [UnitLine(g.unitNames[n - 1], g.units[g.unitNames[n - 1]])];
      forall j | 0 <= j < n - 1 ensures lines[j] == UnitLine(g.unitNames[j], g.units[g.unitNames[j]]) {
        assert lines[j] == before[j];
      }
    }
  }

  /**
   * The echoes of a selected group: the heading (key and alias suffix), a
   * line of exactly as many dashes, one line per unit in insertion order,
   * and the separator.
   */
  lemma GroupLinesShape(key: string, g: Group)
    requires UnitsListed(g)
    ensures |GroupLines(key, g)| == |g.unitNames| + 3
    ensures GroupLines(key, g)[0] == Heading(key, g)
    ensures GroupLines(key, g)[1] == Dashes(|Heading(key, g)|)
    ensures GroupLines(key, g)[|g.unitNames| + 2] == "\n"
  {
    UnitLinesAt(g, |g.unitNames|);
  }

  /** Between the underline and the separator come the unit lines, in order. */
  lemma GroupLinesUnits(key: string, g: Group)
    requires UnitsListed(g)
    ensures |GroupLines(key, g)| == |g.unitNames| + 3
    ensures forall j | 0 <= j < |g.unitNames| ::
      GroupLines(key, g)[j + 2] == UnitLine(g.unitNames[j], g.units[g.unitNames[j]])
  {
    var h, units := Heading(key, g), UnitLines(g, |g.unitNames|);
    var lines := GroupLines(key, g);
    UnitLinesAt(g, |g.unitNames|);
    assert lines == [h, Dashes(|h|)] + units + ["\n"];
    forall j | 0 <= j < |g.unitNames|
      ensures lines[j + 2] == UnitLine(g.unitNames[j], g.units[g.unitNames[j]])
    {
      FramedAt(h, Dashes(|h|), units, "\n", j);
    }
  }

  /** Concatenation is associative. */
  lemma ConcatAssoc<T>(a: seq<T>, b: seq<T>, c: seq<T>)
    ensures (a + b) + c == a + (b + c)
  {
  }

  /** Element j of a middle part framed by two lines before and one after. */
  lemma FramedAt<T>(a: T, b: T, mid: seq<T>, c: T, j: nat)
    requires j < |mid|
    ensures ([a, b] + mid + [c])[j + 2] == mid[j]
  {
  }

  /** `", ".join(parts)` contains every part. */
  lemma {:induction false} JoinContainsParts(parts: seq<string>, sep: string, n: nat)
    requires n < |parts|
    ensures exists i :: OccursAt(Join(parts, sep), parts[n], i)
    decreases |parts|
  {
    var j := Join(parts, sep);
    if |parts| == 1 {
      assert OccursAt(j, parts[n], 0);
    } else if n == 0 {
      assert j == parts[0] + (sep + Join(parts[1..], sep));
      assert j[0..|parts[0]|] == parts[0];
      assert OccursAt(j, parts[n], 0);
    } else {
      JoinContainsParts(parts[1..], sep, n - 1);
      var rest := Join(parts[1..], sep);
      var i :| OccursAt(rest, parts[1..][n - 1], i);
      var off := |parts[0]| + |sep|;
      assert j == (parts[0] + sep) + rest;
      assert j[off + i..off + i + |parts[n]|] == rest[i..i + |parts[n]|];
      assert OccursAt(j, parts[n], off + i);
    }
  }

  /** Filtering by any one of a group's dimension aliases selects that group. */
  lemma AliasSelectsGroup(key: string, g: Group, n: nat)
    requires n < |g.aliases|
    ensures Selected(g.aliases[n], key, g)
  {
    JoinContainsParts(g.aliases, ", ", n);
    var j := Join(g.aliases, ", ");
    var i :| OccursAt(j, g.aliases[n], i);
    var suffix := AliasSuffix(g.aliases);
    assert suffix == " (" + j + ")";
    assert suffix[2 + i..2 + i + |g.aliases[n]|] == j[i..i + |g.aliases[n]|];
    assert OccursAt(suffix, g.aliases[n], 2 + i);
  }

  /** The groups of `items` that the filter selects, in order. */
  function Emitted(value: string, items: seq<(string, Group)>): (r: seq<(string, Group)>)
    ensures forall x :: x in r <==> x in items && Selected(value, x.0, x.1)
    decreases |items|
  {
    if items == [] then []
    else
      var init, last := items[..|items| - 1], items[|items| - 1];
      assert items == init + [last];
      Emitted(value, init) + (if Selected(value, last.0, last.1) then [last] else [])
  }

  lemma EmittedValid(value: string, items: seq<(string, Group)>)
    requires AllUnitsListed(items)
    ensures AllUnitsListed(Emitted(value, items))
  {
    var r := Emitted(value, items);
    forall i | 0 <= i < |r| ensures UnitsListed(r[i].1) {
      assert r[i] in items;
    }
  }

  /** The echoes of the groups gs, one after the other. */
  function RenderGroups(gs: seq<(string, Group)>): seq<string>
    requires AllUnitsListed(gs)
    decreases |gs|
  {
    if gs == [] then []
    else RenderGroups(gs[..|gs| - 1]) + GroupLines(gs[|gs| - 1].0, gs[|gs| - 1].1)
  }

  /** The listing's output is exactly the echoes of the selected groups, in listing order. */
  lemma {:induction false} RenderListingIsEmittedGroups(value: string, items: seq<(string, Group)>)
    requires AllUnitsListed(items)
    ensures AllUnitsListed(Emitted(value, items))
    ensures RenderListing(value, items) == RenderGroups(Emitted(value, items))
    decreases |items|
  {
    EmittedValid(value, items);
    if items != [] {
      var init, last := items[..|items| - 1], items[|items| - 1];
      RenderListingIsEmittedGroups(value, init);
      var e := Emitted(value, init);
      if Selected(value, last.0, last.1) {
        assert (e + [last])[..|e|] == e;
      } else {
        assert e + [] == e;
      }
    }
  }

  /** The filter "*" emits every group. */
  lemma {:induction false} StarEmitsAll(items: seq<(string, Group)>)
    ensures Emitted("*", items) == items
    decreases |items|
  {
    if items != [] {
      var init, last := items[..|items| - 1], items[|items| - 1];
      StarEmitsAll(init);
      assert Selected("*", last.0, last.1);
      assert Emitted("*", items) == Emitted("*", init) + [last];
      assert items == init + [last];
    }
  }

  /** Emitting keeps the order of the listing, so the output stays sorted by key length. */
  lemma {:induction false} EmittedKeepsOrder(value: string, items: seq<(string, Group)>)
    requires SortedByKeyLength(items)
    ensures SortedByKeyLength(Emitted(value, items))
    decreases |items|
  {
    if items != [] {
      var init, last := items[..|items| - 1], items[|items| - 1];
      assert SortedByKeyLength(init);
      EmittedKeepsOrder(value, init);
      var e := Emitted(value, init);
      forall x | x in e ensures |x.0| <= |last.0| {
        var n :| 0 <= n < |init| && init[n] == x;
      }
    }
  }
}
