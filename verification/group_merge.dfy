/**
 * Merging a loaded template into the recorder's configuration: the
 * comma-separated component and response-filter lists, the rule groups (a
 * loaded group whose id is taken is renamed `id (n)`), and rule lists.
 */
module GroupMerge {
  import opened Wrappers
  import opened Sequences
  import opened JavaStrings
  import opened Rules

  // ---------------------------------------------------------------------
  // findNextAvailableTitle
  // ---------------------------------------------------------------------

  /** The n-th candidate name for a group whose id is taken: `title (n)`. */
  function Renamed(title: string, n: nat): string {
    title + " (" + NatToString(n) + ")"
  }

  /** Different numbers give different candidates. */
  lemma RenamedInjective(title: string, m: nat, n: nat)
    requires Renamed(title, m) == Renamed(title, n)
    ensures m == n
  {
    var p := title + " (";
    var a := NatToString(m);
    var b := NatToString(n);
    assert Renamed(title, m) == p + a + ")";
    assert Renamed(title, n) == p + b + ")";
    assert |a| == |b|;
    assert (p + a + ")")[|p|..|p| + |a|] == a;
    assert (p + b + ")")[|p|..|p| + |b|] == b;
    NatToStringInjective(m, n);
  }

  /** The candidates `title (1)` … `title (n)`. */
  function Candidates(title: string, n: nat): (r: seq<string>)
    ensures |r| == n
    ensures forall i :: 0 <= i < n ==> r[i] == Renamed(title, i + 1)
  {
    seq(n, i requires 0 <= i < n => Renamed(title, i + 1))
  }

  /** Only as many candidates as there are ids can all be taken. */
  lemma TakenBound(title: string, n: nat, ids: seq<string>)
    requires forall m :: 1 <= m <= n ==> Renamed(title, m) in ids
    ensures n <= |ids|
  {
    var c := Candidates(title, n);
    forall i, j | 0 <= i < j < n
      ensures c[i] != c[j]
    {
      if c[i] == c[j] {
        RenamedInjective(title, i + 1, j + 1);
      }
    }
    forall x | x in c
      ensures x in ids
    {
      var i :| 0 <= i < n && c[i] == x;
      assert Renamed(title, i + 1) in ids;
    }
    DistinctWithin(c, ids);
  }

  /**
   * The recursion of `findNextAvailableTitle`, on the number: from `n`
   * upwards, the first number whose candidate is not an id. Every number
   * below `n` has already been tried.
   */
  function AvailableNumber(title: string, n: nat, ids: seq<string>): (k: nat)
    requires n >= 1
    requires forall m :: 1 <= m < n ==> Renamed(title, m) in ids
    ensures n <= k <= |ids| + 1
    ensures Renamed(title, k) !in ids
    ensures forall m :: n <= m < k ==> Renamed(title, m) in ids
    decreases |ids| + 1 - n
  {
    TakenBound(title, n - 1, ids);
    if Renamed(title, n) in ids then
      TakenBound(title, n, ids);
      AvailableNumber(title, n + 1, ids)
    else n
  }

  /**
   * `findNextAvailableTitle(title, 1)` against the group ids `ids`:
   * `title (n)` for the least n >= 1 whose candidate is not taken.
   */
  function FindNextAvailableTitle(title: string, ids: seq<string>): (r: string)
    ensures r !in ids
    ensures exists k :: 1 <= k <= |ids| + 1 && r == Renamed(title, k) &&
                        forall m :: 1 <= m < k ==> Renamed(title, m) in ids
  {
    var k := AvailableNumber(title, 1, ids);
    Renamed(title, k)
  }

  // ---------------------------------------------------------------------
  // append: the group loop
  // ---------------------------------------------------------------------

  /** A loaded group as added: the same group, possibly under another id. */
  predicate SameButId(a: Group, b: Group) {
    a.enabled == b.enabled && a.rules == b.rules
  }

  /**
   * A loaded group as `append` adds it: unchanged when its id is not in
   * `taken`, otherwise renamed to the first `id (n)` not in `lookup`.
   */
  function Placed(g: Group, taken: seq<string>, lookup: seq<string>): (r: Group)
    ensures SameButId(r, g)
    ensures g.id !in taken ==> r == g
    ensures g.id in taken ==> r.id !in lookup
  {
    if g.id in taken then g.(id := FindNextAvailableTitle(g.id, lookup)) else g
  }

  /**
   * The group loop of `append` as written, starting from the current groups
   * `before`: each loaded group is added in turn; one whose id is already in
   * the growing list is renamed, but the free name is looked up among the
   * ids of `before` only.
   */
  function AppendGroupsAsWritten(before: seq<Group>, loaded: seq<Group>): (r: seq<Group>)
    ensures |r| == |before| + |loaded| && r[..|before|] == before
    decreases |loaded|
  {
    if |loaded| == 0 then before
    else
      var p := AppendGroupsAsWritten(before, loaded[..|loaded| - 1]);
      var r := p + [Placed(loaded[|loaded| - 1], Ids(p), Ids(before))];
      assert r[..|before|] == p[..|before|];
      r
  }

  /** Two loaded groups that both collide with "X" both become "X (1)". */
  lemma AppendGroupsDuplicateIds()
    ensures var x := Group("X", true, []);
      Ids(AppendGroupsAsWritten([x], [x, x])) == ["X", "X (1)", "X (1)"]
  {
    var x := Group("X", true, []);
    var x1 := x.(id := "X (1)");
    assert NatToString(1) == "1";
    assert Renamed("X", 1) == "X (1)";
    assert AvailableNumber("X", 1, ["X"]) == 1;
    assert FindNextAvailableTitle("X", ["X"]) == "X (1)";
    assert Ids([x]) == ["X"];
    assert [x, x][..1] == [x] && [x][..0] == [];
    assert AppendGroupsAsWritten([x], [x]) == [x, x1];
    assert Ids([x, x1]) == ["X", "X (1)"];
    assert AppendGroupsAsWritten([x], [x, x]) == [x, x1, x1];
  }

  /**
   * Each loaded group is placed as the loop as written places it: under its
   * own id when that id is free among the groups ahead of it, otherwise under
   * the first `id (n)` that is free among the current groups `before`.
   */
  lemma {:induction false} AppendGroupsAsWrittenPlaces(before: seq<Group>, loaded: seq<Group>, i: nat)
    requires i < |loaded|
    ensures var r := AppendGroupsAsWritten(before, loaded);
      r[|before| + i] == Placed(loaded[i], Ids(r[..|before| + i]), Ids(before))
    decreases |loaded|
  {
    var init := loaded[..|loaded| - 1];
    var p := AppendGroupsAsWritten(before, init);
    var r := AppendGroupsAsWritten(before, loaded);
    assert r == p + [Placed(loaded[|loaded| - 1], Ids(p), Ids(before))];
    var n := |before| + i;
    if i == |loaded| - 1 {
      assert r[..n] == p;
    } else {
      AppendGroupsAsWrittenPlaces(before, init, i);
      assert init[i] == loaded[i];
      assert r[..n] == p[..n];
      assert r[n] == p[n];
    }
  }

  /**
   * `r` continues `before` with the loaded groups placed as the loop as
   * written places them (see `AppendGroupsAsWrittenPlaces`).
   */
  predicate PlacedAsWritten(before: seq<Group>, loaded: seq<Group>, r: seq<Group>)
    requires |r| == |before| + |loaded|
  {
    forall i :: 0 <= i < |loaded| ==>
      r[|before| + i] == Placed(loaded[i], Ids(r[..|before| + i]), Ids(before))
  }

  /** `AppendGroupsAsWrittenPlaces` for every loaded group at once. */
  lemma AppendGroupsAsWrittenPlacesAll(before: seq<Group>, loaded: seq<Group>)
    ensures PlacedAsWritten(before, loaded, AppendGroupsAsWritten(before, loaded))
  {
    var r := AppendGroupsAsWritten(before, loaded);
    forall i | 0 <= i < |loaded|
      ensures r[|before| + i] == Placed(loaded[i], Ids(r[..|before| + i]), Ids(before))
    {
      AppendGroupsAsWrittenPlaces(before, loaded, i);
    }
  }

  /**
   * The group loop with the free name looked up in the growing list: the
   * current groups are kept, each loaded group is added in order, under its
   * own id when free and otherwise under the first free `id (n)`.
   */
  function AppendGroups(before: seq<Group>, loaded: seq<Group>): (r: seq<Group>)
    ensures |r| == |before| + |loaded| && r[..|before|] == before
    decreases |loaded|
  {
    if |loaded| == 0 then before
    else
      var p := AppendGroups(before, loaded[..|loaded| - 1]);
      var r := p + [Placed(loaded[|loaded| - 1], Ids(p), Ids(p))];
      assert r[..|before|] == p[..|before|];
      r
  }

  /** With the lookup in the growing list, group ids stay unique. */
  lemma {:induction false} AppendGroupsDistinct(before: seq<Group>, loaded: seq<Group>)
    requires Distinct(Ids(before))
    ensures Distinct(Ids(AppendGroups(before, loaded)))
    decreases |loaded|
  {
    if |loaded| > 0 {
      var p := AppendGroups(before, loaded[..|loaded| - 1]);
      AppendGroupsDistinct(before, loaded[..|loaded| - 1]);
      var g' := Placed(loaded[|loaded| - 1], Ids(p), Ids(p));
      assert g'.id !in Ids(p);
      assert Ids(p + [g']) == Ids(p) + [g'.id];
    }
  }

  /**
   * Each loaded group is placed against the groups before it in the result:
   * under its own id when that id is free there, otherwise under the first
   * free `id (n)`.
   */
  lemma {:induction false} AppendGroupsPlaces(before: seq<Group>, loaded: seq<Group>, i: nat)
    requires i < |loaded|
    ensures var r := AppendGroups(before, loaded);
      r[|before| + i] == Placed(loaded[i], Ids(r[..|before| + i]), Ids(r[..|before| + i]))
    decreases |loaded|
  {
    var init := loaded[..|loaded| - 1];
    var p := AppendGroups(before, init);
    var r := AppendGroups(before, loaded);
    assert r == p + [Placed(loaded[|loaded| - 1], Ids(p), Ids(p))];
    var n := |before| + i;
    if i == |loaded| - 1 {
      assert r[..n] == p;
    } else {
      AppendGroupsPlaces(before, init, i);
      assert init[i] == loaded[i];
      assert r[..n] == p[..n];
      assert r[n] == p[n];
    }
  }

  // ---------------------------------------------------------------------
  // cleanRepeated
  // ---------------------------------------------------------------------

  /** The pieces of a comma-separated list once line breaks are removed. */
  function Tokens(s: string): seq<string> {
    Split(RemoveChar(s, '\n'), ",")
  }

  /** The tokens `cleanRepeated` collects: the current list's (none when it is empty), then the loaded list's. */
  function Pool(actual: string, loaded: string): seq<string> {
    (if actual == "" then [] else Tokens(actual)) + Tokens(loaded)
  }

  function TrimAll(ts: seq<string>): (r: seq<string>)
    ensures |r| == |ts|
    ensures forall i :: 0 <= i < |ts| ==> r[i] == Trim(ts[i])
  {
    seq(|ts|, i requires 0 <= i < |ts| => Trim(ts[i]))
  }

  /** `order` lists the elements of `pool` once each: an iteration order of the hash set built from it. */
  ghost predicate Enumerates(order: seq<string>, pool: seq<string>) {
    Distinct(order) && forall x :: x in order <==> x in pool
  }

  /**
   * `cleanRepeated` as written: the union of the two token sets, in the
   * hash set's iteration order `order`, each token trimmed and the results
   * joined with commas. An empty loaded list keeps the current one.
   */
  function CleanRepeatedAsWritten(actual: string, loaded: string, order: seq<string>): (r: string)
    requires loaded != "" ==> Enumerates(order, Pool(actual, loaded))
    ensures loaded == "" ==> r == actual
  {
    if loaded == "" then actual else Join(TrimAll(order), ",")
  }

  /** The trimmed tokens it joins are exactly the trimmed tokens of both lists. */
  lemma CleanRepeatedAsWrittenTokens(actual: string, loaded: string, order: seq<string>, t: string)
    requires Enumerates(order, Pool(actual, loaded))
    ensures t in TrimAll(order) <==> t in TrimAll(Pool(actual, loaded))
  {
    var pool := Pool(actual, loaded);
    if t in TrimAll(order) {
      var k :| 0 <= k < |order| && TrimAll(order)[k] == t;
      assert order[k] in pool;
      var j :| 0 <= j < |pool| && pool[j] == order[k];
      assert TrimAll(pool)[j] == t;
    }
    if t in TrimAll(pool) {
      var j :| 0 <= j < |pool| && TrimAll(pool)[j] == t;
      assert pool[j] in order;
      var k :| 0 <= k < |order| && order[k] == pool[j];
      assert TrimAll(order)[k] == t;
    }
  }

  /** "a" and " a" are different set elements but the same token once trimmed: it comes out twice. */
  lemma CleanRepeatedKeepsDuplicates(order: seq<string>)
    requires Enumerates(order, Pool("a", " a"))
    ensures CleanRepeatedAsWritten("a", " a", order) == "a,a"
  {
    PoolOfSpacedDuplicate();
    EnumeratesPair(order, "a", " a");
    TrimsToA();
    assert TrimAll(order) == [Trim(order[0]), Trim(order[1])];
    assert Join(["a", "a"], ",") == "a,a";
  }

  lemma TrimsToA()
    ensures Trim("a") == "a" && Trim(" a") == "a"
  {
    assert Trimmed("a");
    TrimmedFixed("a");
    TrimLeadingSpace("a");
  }

  /** The tokens of "a" and of " a". */
  lemma PoolOfSpacedDuplicate()
    ensures Pool("a", " a") == ["a", " a"]
  {
    assert RemoveChar("a", '\n') == "a";
    assert RemoveChar(" a", '\n') == " a";
    NoComma("a");
    NoComma(" a");
  }

  /** A two-element set is enumerated in one of its two orders. */
  lemma EnumeratesPair(order: seq<string>, x: string, y: string)
    requires x != y && Enumerates(order, [x, y])
    ensures order == [x, y] || order == [y, x]
  {
    DistinctWithin(order, [x, y]);
    assert x in order && y in order;
    var i :| 0 <= i < |order| && order[i] == x;
    var j :| 0 <= j < |order| && order[j] == y;
    assert |order| == 2;
  }

  /** A string without commas is split into itself. */
  lemma NoComma(s: string)
    requires forall i :: 0 <= i < |s| ==> s[i] != ','
    ensures Split(s, ",") == [s]
  {
    assert "," == [','];
    IndexOfCharAbsent(s, ',', 0);
    assert Pieces(s, ",") == [s];
  }

  /**
   * `cleanRepeated` with trimming before the duplicate check: the trimmed
   * tokens of both lists, each once, in order of first occurrence.
   */
  function CleanedTokens(actual: string, loaded: string): (r: seq<string>)
    ensures Distinct(r)
    ensures forall t :: t in r <==> t in TrimAll(Pool(actual, loaded))
  {
    DedupIntoSpec([], TrimAll(Pool(actual, loaded)));
    Dedup(TrimAll(Pool(actual, loaded)))
  }

  function CleanRepeated(actual: string, loaded: string): (r: string)
    ensures loaded == "" ==> r == actual
  {
    if loaded == "" then actual else Join(CleanedTokens(actual, loaded), ",")
  }

  /** No token of a comma-separated list holds a comma. */
  lemma TokensAvoidComma(s: string, t: string, i: nat)
    requires t in Tokens(s) && i < |t|
    ensures t[i] != ','
  {
    var u := RemoveChar(s, '\n');
    PiecesAvoidDelimiter(u, ",");
    var k :| 0 <= k < |Tokens(s)| && Tokens(s)[k] == t;
    assert Pieces(u, ",")[k] == t;
    assert "," == [','];
    OccursAtChar(t, ',', i);
  }

  /** Every token either list contributes is comma-free. */
  lemma PoolAvoidsComma(actual: string, loaded: string, x: string, m: nat)
    requires x in Pool(actual, loaded) && m < |x|
    ensures x[m] != ','
  {
    var a := if actual == "" then [] else Tokens(actual);
    assert Pool(actual, loaded) == a + Tokens(loaded);
    if x in a {
      TokensAvoidComma(actual, x, m);
    } else {
      TokensAvoidComma(loaded, x, m);
    }
  }

  /** A cleaned token holds no comma either: trimming only removes characters. */
  lemma CleanedTokenAvoidsComma(actual: string, loaded: string, t: string, i: nat)
    requires t in CleanedTokens(actual, loaded) && i < |t|
    ensures t[i] != ','
  {
    var pool := Pool(actual, loaded);
    assert t in TrimAll(pool);
    var j :| 0 <= j < |pool| && TrimAll(pool)[j] == t;
    var x := pool[j];
    assert t == Trim(x);
    assert t[i] in x;
    var m :| 0 <= m < |x| && x[m] == t[i];
    PoolAvoidsComma(actual, loaded, x, m);
  }

  /**
   * The merged list splits back, at its commas, into the cleaned tokens:
   * every token of either list appears in it exactly once, trimmed.
   */
  lemma CleanRepeatedSplits(actual: string, loaded: string)
    requires loaded != "" && CleanedTokens(actual, loaded) != []
    ensures Pieces(CleanRepeated(actual, loaded), ",") == CleanedTokens(actual, loaded)
  {
    var ts := CleanedTokens(actual, loaded);
    forall k, i | 0 <= k < |ts| && 0 <= i < |ts[k]|
      ensures ts[k][i] != ','
    {
      CleanedTokenAvoidsComma(actual, loaded, ts[k], i);
    }
    assert "," == [','];
    PiecesOfJoin(ts, ',');
  }

  /** With trimming first, "a" and " a" merge into one token. */
  lemma CleanRepeatedMerges()
    ensures CleanRepeated("a", " a") == "a"
  {
    PoolOfSpacedDuplicate();
    TrimsToA();
    assert TrimAll(["a", " a"]) == ["a", "a"];
    assert Dedup(["a", "a"]) == ["a"];
    assert Join(["a"], ",") == "a";
  }

  // ---------------------------------------------------------------------
  // appendCorrelationRules
  // ---------------------------------------------------------------------

  /**
   * `appendCorrelationRules`: an empty loaded list returns the current list
   * untouched; otherwise the union of both, each rule once, in order of first
   * occurrence (current rules first). Nothing calls it in this version of
   * the source: `append` adds loaded groups whole.
   */
  function AppendCorrelationRules(actual: seq<Rule>, loaded: seq<Rule>): (r: seq<Rule>)
    ensures |loaded| == 0 ==> r == actual
    ensures |loaded| > 0 ==> Distinct(r)
    ensures |loaded| > 0 ==> forall x :: x in r <==> x in actual || x in loaded
    ensures |loaded| > 0 ==> forall i, j :: 0 <= i < j < |r| ==>
              FirstIndex(actual + loaded, r[i]) < FirstIndex(actual + loaded, r[j])
  {
    if |loaded| == 0 then actual
    else
      DedupIntoSpec([], actual + loaded);
      Dedup(actual + loaded)
  }

  // ---------------------------------------------------------------------
  // append
  // ---------------------------------------------------------------------

  /** The parts of the recorder's configuration a template merge touches. */
  datatype Control = Control(components: string, filters: string, groups: seq<Group>)

  /**
   * `append` as written: components and filters are `cleanRepeated` unions
   * in the hash sets' iteration orders (kept when nothing is loaded); each
   * loaded group is added after the current ones, renamed when its id is
   * taken in the growing list, to a name free among the current groups only.
   */
  function AppendAsWritten(
    c: Control, loadedComponents: string, loadedGroups: seq<Group>, loadedFilters: string,
    componentOrder: seq<string>, filterOrder: seq<string>
  ): (r: Control)
    requires loadedComponents != "" ==> Enumerates(componentOrder, Pool(c.components, loadedComponents))
    requires loadedFilters != "" ==> Enumerates(filterOrder, Pool(c.filters, loadedFilters))
    ensures loadedComponents == "" ==> r.components == c.components
    ensures loadedFilters == "" ==> r.filters == c.filters
    ensures |r.groups| == |c.groups| + |loadedGroups| && r.groups[..|c.groups|] == c.groups
    ensures PlacedAsWritten(c.groups, loadedGroups, r.groups)
  {
    var groups := AppendGroupsAsWritten(c.groups, loadedGroups);
    AppendGroupsAsWrittenPlacesAll(c.groups, loadedGroups);
    Control(
      CleanRepeatedAsWritten(c.components, loadedComponents, componentOrder),
      CleanRepeatedAsWritten(c.filters, loadedFilters, filterOrder),
      groups)
  }

  /**
   * `append` corrected: components and filters are cleaned unions with
   * trimming before the duplicate check (kept when nothing is loaded); each
   * loaded group is added after the current ones, renamed to a name free in
   * the growing list, so unique group ids stay unique.
   */
  function Append(c: Control, loadedComponents: string, loadedGroups: seq<Group>, loadedFilters: string): (r: Control)
    ensures loadedComponents == "" ==> r.components == c.components
    ensures loadedFilters == "" ==> r.filters == c.filters
    ensures |r.groups| == |c.groups| + |loadedGroups| && r.groups[..|c.groups|] == c.groups
    ensures forall i :: 0 <= i < |loadedGroups| ==> SameButId(r.groups[|c.groups| + i], loadedGroups[i])
    ensures Distinct(Ids(c.groups)) ==> Distinct(Ids(r.groups))
  {
    var groups := AppendGroups(c.groups, loadedGroups);
    assert Distinct(Ids(c.groups)) ==> Distinct(Ids(groups)) by {
      if Distinct(Ids(c.groups)) {
        AppendGroupsDistinct(c.groups, loadedGroups);
      }
    }
    assert forall i :: 0 <= i < |loadedGroups| ==> SameButId(groups[|c.groups| + i], loadedGroups[i]) by {
      forall i | 0 <= i < |loadedGroups|
        ensures SameButId(groups[|c.groups| + i], loadedGroups[i])
      {
        AppendGroupsPlaces(c.groups, loadedGroups, i);
      }
    }
    Control(
      if loadedComponents == "" then c.components else CleanRepeated(c.components, loadedComponents),
      if loadedFilters == "" then c.filters else CleanRepeated(c.filters, loadedFilters),
      groups)
  }
}
