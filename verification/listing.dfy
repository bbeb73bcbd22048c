/** The two listings: `list_unique_groups` (ADdump-parse.py:37-48) and
    `list_users_in_group` (ADdump-parse.py:50-71), with the printed lines
    returned as data. */
module Listing {
  import opened Ascii
  import opened LexOrder
  import opened Records
  import opened GroupStore

  /** `len(set(users))`: the number of distinct (cn, sam, flags) tuples. */
  function DistinctCount(rows: seq<Member>): (r: nat)
    ensures r <= |rows|
    ensures r == 0 <==> rows == []
  {
    DistinctCountBound(rows);
    var distinct := set m | m in rows;
    assert rows != [] ==> rows[0] in distinct && |distinct| > 0;
    assert rows == [] ==> distinct == {};
    |distinct|
  }

  lemma {:induction false} DistinctCountBound(rows: seq<Member>)
    ensures |(set m | m in rows)| <= |rows|
    decreases |rows|
  {
    if rows != [] {
      var init := rows[..|rows| - 1];
      DistinctCountSnoc(init, rows[|rows| - 1]);
      assert init + [rows[|rows| - 1]] == rows;
      DistinctCountBound(init);
    }
  }

  /** Appending a row raises the distinct count by one exactly when the row
      was not stored yet. */
  lemma DistinctCountSnoc(rows: seq<Member>, x: Member)
    ensures |(set m | m in rows + [x])| == |(set m | m in rows)| + if x in rows then 0 else 1
  {
    assert (set m | m in rows + [x]) == (set m | m in rows) + {x};
  }

  // ---------------------------------------------------------------------
  // Group listing

  /** `sorted(..., key=lambda x: x[0].lower())` or, with `--sort`,
      `sorted(..., key=lambda x: len(set(x[1])), reverse=True)`. */
  datatype SortMode = ByName | BySize

  /** One printed line `group - (count)`. */
  datatype GroupLine = GroupLine(name: string, count: nat)

  /** The listed lines and the trailing total. */
  datatype GroupListing = GroupListing(lines: seq<GroupLine>, total: nat)

  function LineOf(e: Entry): GroupLine {
    GroupLine(e.name, DistinctCount(e.rows))
  }

  /** `a` may be listed before `b`: by name, its lowered name is not greater;
      by size, its count is not smaller. */
  predicate InOrder(mode: SortMode, a: GroupLine, b: GroupLine) {
    match mode
    case ByName => !StrLt(Lower(b.name), Lower(a.name))
    case BySize => a.count >= b.count
  }

  lemma InOrderTotal(mode: SortMode, a: GroupLine, b: GroupLine)
    ensures InOrder(mode, a, b) || InOrder(mode, b, a)
  {
    if mode == ByName && StrLt(Lower(b.name), Lower(a.name)) {
      StrLtAsymmetric(Lower(b.name), Lower(a.name));
    }
  }

  lemma InOrderTransitive(mode: SortMode, a: GroupLine, b: GroupLine, c: GroupLine)
    requires InOrder(mode, a, b) && InOrder(mode, b, c)
    ensures InOrder(mode, a, c)
  {
    if mode == ByName {
      var la, lb, lc := Lower(a.name), Lower(b.name), Lower(c.name);
      StrLtTrichotomy(la, lb);
      StrLtTrichotomy(lb, lc);
      if StrLt(la, lb) && StrLt(lb, lc) {
        StrLtTransitive(la, lb, lc);
      }
      if StrLt(la, lc) {
        StrLtAsymmetric(la, lc);
      } else if la == lc {
        StrLtIrreflexive(la);
      }
    }
  }

  /** A group line together with the position of its item in the
      dictionary, which is what a stable sort falls back on. */
  datatype Ranked = Ranked(line: GroupLine, pos: nat)

  /** The items are listed in `mode` order of their lines. */
  predicate SortedLines(mode: SortMode, s: seq<Ranked>) {
    forall i, j :: 0 <= i < j < |s| ==> InOrder(mode, s[i].line, s[j].line)
  }

  /** Items whose lines tie keep their dictionary order: the stability of
      Python's `sorted`, also under `reverse=True`. */
  predicate TiesInStoreOrder(mode: SortMode, s: seq<Ranked>) {
    forall i, j :: 0 <= i < j < |s| && InOrder(mode, s[j].line, s[i].line) ==> s[i].pos < s[j].pos
  }

  predicate DistinctPos(s: seq<Ranked>) {
    forall i, j :: 0 <= i < j < |s| ==> s[i].pos != s[j].pos
  }

  /** What the insertion sort keeps true of the items sorted so far. */
  predicate SortedSoFar(mode: SortMode, s: seq<Ranked>) {
    SortedLines(mode, s) && TiesInStoreOrder(mode, s) && DistinctPos(s)
  }

  /** Stable insertion of an item that comes after every item of `s` in
      the dictionary: it goes after every line it does not strictly
      precede. */
  function Insert(mode: SortMode, x: Ranked, s: seq<Ranked>): (r: seq<Ranked>)
    ensures |r| == |s| + 1
    ensures forall y :: y in r <==> y == x || y in s
  {
    if s == [] then [x]
    else if !InOrder(mode, s[0].line, x.line) then [x] + s
    else [s[0]] + Insert(mode, x, s[1..])
  }

  /** The item strictly precedes the head, so it precedes everything and
      ties nothing. */
  lemma InsertFront(mode: SortMode, x: Ranked, s: seq<Ranked>)
    requires SortedSoFar(mode, s) && s != [] && !InOrder(mode, s[0].line, x.line)
    requires forall i :: 0 <= i < |s| ==> s[i].pos < x.pos
    ensures SortedSoFar(mode, [x] + s)
  {
    InOrderTotal(mode, s[0].line, x.line);
    forall j | 0 < j < |s|
      ensures InOrder(mode, x.line, s[j].line)
      ensures !InOrder(mode, s[j].line, x.line)
    {
      InOrderTransitive(mode, x.line, s[0].line, s[j].line);
      if InOrder(mode, s[j].line, x.line) {
        InOrderTransitive(mode, s[0].line, s[j].line, x.line);
      }
    }
  }

  /** The head stays in front of the insertion into the tail. */
  lemma InsertBehind(mode: SortMode, x: Ranked, s: seq<Ranked>, rest: seq<Ranked>)
    requires SortedSoFar(mode, s) && s != [] && InOrder(mode, s[0].line, x.line)
    requires forall i :: 0 <= i < |s| ==> s[i].pos < x.pos
    requires SortedSoFar(mode, rest)
    requires forall y :: y in rest <==> y == x || y in s[1..]
    ensures SortedSoFar(mode, [s[0]] + rest)
  {
    forall j | 0 <= j < |rest|
      ensures InOrder(mode, s[0].line, rest[j].line)
      ensures InOrder(mode, rest[j].line, s[0].line) ==> s[0].pos < rest[j].pos
      ensures rest[j].pos != s[0].pos
    {
      if rest[j] != x {
        assert rest[j] in s[1..];
        var k :| 0 <= k < |s[1..]| && s[1..][k] == rest[j];
        assert s[k + 1] == rest[j];
      }
    }
  }

  lemma {:induction false} InsertSorted(mode: SortMode, x: Ranked, s: seq<Ranked>)
    requires SortedSoFar(mode, s)
    requires forall i :: 0 <= i < |s| ==> s[i].pos < x.pos
    ensures SortedSoFar(mode, Insert(mode, x, s))
    decreases |s|
  {
    if s == [] {
    } else if !InOrder(mode, s[0].line, x.line) {
      InsertFront(mode, x, s);
    } else {
      InsertSorted(mode, x, s[1..]);
      InsertBehind(mode, x, s, Insert(mode, x, s[1..]));
    }
  }

  /** The dictionary items in order, each with its position. */
  function RankedItems(st: Store): (r: seq<Ranked>)
    ensures |r| == |st|
    ensures forall i :: 0 <= i < |st| ==> r[i] == Ranked(LineOf(st[i]), i)
  {
    seq(|st|, i requires 0 <= i < |st| => Ranked(LineOf(st[i]), i))
  }

  /** Stable insertion sort of the first `n` items. The result lists each of
      them once, in `mode` order, ties in dictionary order. */
  function SortItems(mode: SortMode, items: seq<Ranked>, n: nat): (r: seq<Ranked>)
    requires n <= |items|
    requires forall i :: 0 <= i < |items| ==> items[i].pos == i
    ensures |r| == n
    ensures forall y :: y in r <==> y in items[..n]
    ensures SortedSoFar(mode, r)
  {
    if n == 0 then []
    else
      var s := SortItems(mode, items, n - 1);
      assert items[..n] == items[..n - 1] + [items[n - 1]];
      forall i | 0 <= i < |s|
        ensures s[i].pos < n - 1
      {
        assert s[i] in items[..n - 1];
      }
      InsertSorted(mode, items[n - 1], s);
      Insert(mode, items[n - 1], s)
  }

  /** Key `a` was inserted into the dictionary before key `b`. */
  ghost predicate InsertedBefore(st: Store, a: string, b: string) {
    exists p, q :: 0 <= p < q < |st| && st[p].name == a && st[q].name == b
  }

  /** `list_unique_groups`: one line per key, each the key's name and
      number of distinct rows, ordered by the chosen mode with ties in
      dictionary order, and the total number of keys. */
  function ListUniqueGroups(st: Store, mode: SortMode): (r: GroupListing)
    requires UniqueNames(st)
    ensures r.total == |r.lines| == |st|
    ensures forall l :: l in r.lines <==> l in StoreLines(st)
    ensures forall i, j :: 0 <= i < j < |r.lines| ==> r.lines[i].name != r.lines[j].name
    ensures forall i, j :: 0 <= i < j < |r.lines| ==> InOrder(mode, r.lines[i], r.lines[j])
    ensures forall i, j :: 0 <= i < j < |r.lines| && InOrder(mode, r.lines[j], r.lines[i]) ==>
      InsertedBefore(st, r.lines[i].name, r.lines[j].name)
  {
    var items := RankedItems(st);
    assert items[..|st|] == items;
    var sorted := SortItems(mode, items, |st|);
    SortedItemFacts(st, items, sorted);
    var lines := LinesOf(sorted);
    ListingCovers(st, sorted, lines);
    ListingOrder(st, mode, sorted, lines);
    GroupListing(lines, |lines|)
  }

  function LinesOf(s: seq<Ranked>): (r: seq<GroupLine>)
    ensures |r| == |s| && forall i :: 0 <= i < |s| ==> r[i] == s[i].line
  {
    seq(|s|, i requires 0 <= i < |s| => s[i].line)
  }

  /** Each sorted item carries the line of the dictionary item at its
      position, and every dictionary item is among them. */
  lemma SortedItemFacts(st: Store, items: seq<Ranked>, sorted: seq<Ranked>)
    requires items == RankedItems(st)
    requires forall y :: y in sorted <==> y in items
    ensures forall i :: 0 <= i < |sorted| ==> sorted[i].pos < |st| && sorted[i].line == LineOf(st[sorted[i].pos])
    ensures forall k :: 0 <= k < |st| ==> Ranked(LineOf(st[k]), k) in sorted
  {
    forall i | 0 <= i < |sorted|
      ensures sorted[i].pos < |st| && sorted[i].line == LineOf(st[sorted[i].pos])
    {
      assert sorted[i] in items;
    }
    forall k | 0 <= k < |st|
      ensures Ranked(LineOf(st[k]), k) in sorted
    {
      assert items[k] in items;
    }
  }

  /** Every item's line, in dictionary order. */
  function StoreLines(st: Store): (r: seq<GroupLine>)
    ensures |r| == |st| && forall k :: 0 <= k < |st| ==> r[k] == LineOf(st[k])
  {
    seq(|st|, k requires 0 <= k < |st| => LineOf(st[k]))
  }

  /** The sorted items' lines are exactly the dictionary items' lines. */
  lemma ListingCovers(st: Store, sorted: seq<Ranked>, lines: seq<GroupLine>)
    requires forall i :: 0 <= i < |sorted| ==> sorted[i].pos < |st| && sorted[i].line == LineOf(st[sorted[i].pos])
    requires forall k :: 0 <= k < |st| ==> Ranked(LineOf(st[k]), k) in sorted
    requires lines == LinesOf(sorted)
    ensures forall l :: l in lines <==> l in StoreLines(st)
  {
    var all := StoreLines(st);
    forall l | l in lines
      ensures l in all
    {
      var i :| 0 <= i < |lines| && lines[i] == l;
      assert all[sorted[i].pos] == l;
    }
    forall l | l in all
      ensures l in lines
    {
      var k :| 0 <= k < |all| && all[k] == l;
      assert Ranked(l, k) in sorted;
      var i :| 0 <= i < |sorted| && sorted[i] == Ranked(l, k);
      assert lines[i] == l;
    }
  }

  /** The sorted items' lines name each key once, in `mode` order, with
      ties in dictionary order. */
  lemma ListingOrder(st: Store, mode: SortMode, sorted: seq<Ranked>, lines: seq<GroupLine>)
    requires UniqueNames(st) && SortedSoFar(mode, sorted)
    requires forall i :: 0 <= i < |sorted| ==> sorted[i].pos < |st| && sorted[i].line == LineOf(st[sorted[i].pos])
    requires lines == LinesOf(sorted)
    ensures forall i, j :: 0 <= i < j < |lines| ==> lines[i].name != lines[j].name
    ensures forall i, j :: 0 <= i < j < |lines| ==> InOrder(mode, lines[i], lines[j])
    ensures forall i, j :: 0 <= i < j < |lines| && InOrder(mode, lines[j], lines[i]) ==>
      InsertedBefore(st, lines[i].name, lines[j].name)
  {
    forall i, j | 0 <= i < j < |lines|
      ensures lines[i].name != lines[j].name
      ensures InOrder(mode, lines[j], lines[i]) ==> InsertedBefore(st, lines[i].name, lines[j].name)
    {
      var p, q := sorted[i].pos, sorted[j].pos;
      assert p != q;
      if InOrder(mode, lines[j], lines[i]) {
        assert p < q && st[p].name == lines[i].name && st[q].name == lines[j].name;
      }
    }
  }

  /** Each listed count is the number of distinct rows `user_groups` holds
      under the listed name. */
  lemma ListedCount(st: Store, mode: SortMode, i: nat)
    requires UniqueNames(st) && i < |ListUniqueGroups(st, mode).lines|
    ensures var line := ListUniqueGroups(st, mode).lines[i];
      line.name in Names(st) && line.count == DistinctCount(Lookup(st, line.name))
  {
    var line := ListUniqueGroups(st, mode).lines[i];
    assert line in StoreLines(st);
    var k :| 0 <= k < |st| && StoreLines(st)[k] == line;
    assert Names(st)[k] == st[k].name;
    LookupAt(st, k);
  }

  // ---------------------------------------------------------------------
  // Member listing

  /** Strictly increasing in `(cn, sam, flags)` order, hence free of
      duplicates. */
  predicate StrictlySorted(s: seq<Member>) {
    forall i, j :: 0 <= i < j < |s| ==> MemberLt(s[i], s[j])
  }

  /** Insert `m` into a strictly increasing sequence, dropping it if it is
      already there. */
  function InsertUnique(m: Member, s: seq<Member>): (r: seq<Member>)
    requires StrictlySorted(s)
    ensures StrictlySorted(r)
    ensures forall x :: x in r <==> x == m || x in s
    ensures |r| <= |s| + 1
  {
    if s == [] then [m]
    else if m == s[0] then s
    else if MemberLt(m, s[0]) then
      InsertFrontSorted(m, s);
      [m] + s
    else
      var rest := InsertUnique(m, s[1..]);
      MemberLtTrichotomy(m, s[0]);
      ConsSorted(s[0], rest, s[1..]);
      [s[0]] + rest
  }

  lemma InsertFrontSorted(m: Member, s: seq<Member>)
    requires StrictlySorted(s) && s != [] && MemberLt(m, s[0])
    ensures StrictlySorted([m] + s)
  {
    forall j | 0 < j < |s|
      ensures MemberLt(m, s[j])
    {
      MemberLtTransitive(m, s[0], s[j]);
    }
  }

  lemma ConsSorted(x: Member, rest: seq<Member>, s: seq<Member>)
    requires StrictlySorted(rest)
    requires StrictlySorted([x] + s)
    requires forall y :: y in rest ==> y in s || MemberLt(x, y)
    ensures StrictlySorted([x] + rest)
  {
    forall j | 0 <= j < |rest|
      ensures MemberLt(x, rest[j])
    {
      if rest[j] in s {
        var k :| 0 <= k < |s| && s[k] == rest[j];
        assert ([x] + s)[0] == x && ([x] + s)[k + 1] == rest[j];
      }
    }
  }

  /** `sorted(set(users))`: the distinct rows, strictly increasing. */
  function SortUnique(rows: seq<Member>): (r: seq<Member>)
    ensures StrictlySorted(r)
    ensures forall x :: x in r <==> x in rows
    ensures |r| <= |rows|
  {
    if rows == [] then []
    else
      var init := rows[..|rows| - 1];
      assert rows == init + [rows[|rows| - 1]];
      InsertUnique(rows[|rows| - 1], SortUnique(init))
  }

  /** A strictly increasing sequence is determined by its elements. */
  lemma {:induction false} StrictlySortedUnique(a: seq<Member>, b: seq<Member>)
    requires StrictlySorted(a) && StrictlySorted(b)
    requires forall x :: x in a <==> x in b
    ensures a == b
    decreases |a|
  {
    StrictlySortedCard(a);
    StrictlySortedCard(b);
    assert (set x | x in a) == (set x | x in b);
    if a != [] {
      if a[0] != b[0] {
        assert b[0] in a;
        assert a[0] in b;
        var i :| 0 <= i < |a| && a[i] == b[0];
        var j :| 0 <= j < |b| && b[j] == a[0];
        MemberLtAsymmetric(a[0], b[0]);
      }
      forall x
        ensures x in a[1..] <==> x in b[1..]
      {
        if x in a[1..] {
          var i :| 0 <= i < |a[1..]| && a[1..][i] == x;
          assert a[i + 1] == x && x in a && x in b;
          MemberLtIrreflexive(a[0]);
          var k :| 0 <= k < |b| && b[k] == x;
          assert k != 0 && b[1..][k - 1] == x;
        }
        if x in b[1..] {
          var i :| 0 <= i < |b[1..]| && b[1..][i] == x;
          assert b[i + 1] == x && x in b && x in a;
          MemberLtIrreflexive(b[0]);
          var k :| 0 <= k < |a| && a[k] == x;
          assert k != 0 && a[1..][k - 1] == x;
        }
      }
      StrictlySortedUnique(a[1..], b[1..]);
    }
  }

  /** The member listing depends only on which rows are stored: neither
      their order nor their repetitions matter. */
  lemma SortUniqueIgnoresOrderAndDuplicates(rows: seq<Member>, rows': seq<Member>)
    requires forall x :: x in rows <==> x in rows'
    ensures SortUnique(rows) == SortUnique(rows')
  {
    StrictlySortedUnique(SortUnique(rows), SortUnique(rows'));
  }

  /** A strictly increasing sequence has as many distinct elements as it
      has elements. */
  lemma {:induction false} StrictlySortedCard(s: seq<Member>)
    requires StrictlySorted(s)
    ensures |(set m | m in s)| == |s|
    decreases |s|
  {
    if s != [] {
      StrictlySortedCard(s[1..]);
      MemberLtIrreflexive(s[0]);
      assert (set m | m in s) == {s[0]} + (set m | m in s[1..]);
      assert s[0] !in (set m | m in s[1..]);
    }
  }

  /** The printed member lines: the short name alone, or with `detailed`
      the line that leads with the short name and adds the canonical name
      and the flags. */
  function Render(members: seq<Member>, detailed: bool): (r: seq<string>)
    ensures |r| == |members|
    ensures forall i :: 0 <= i < |members| ==> members[i].sam <= r[i]
    ensures !detailed ==> forall i :: 0 <= i < |members| ==> r[i] == members[i].sam
    ensures detailed ==> forall i :: 0 <= i < |members| ==> r[i] == DetailLine(members[i])
  {
    seq(|members|, i requires 0 <= i < |members| =>
      if detailed then DetailLine(members[i]) else members[i].sam)
  }

  /** The result of `list_users_in_group`: the "No users found" branch, or
      the distinct sorted members with one printed line each (their count is
      the number printed after them). */
  datatype MemberListing = NotFound | Found(members: seq<Member>, lines: seq<string>)

  /** `list_users_in_group`: an absent or empty group takes the not-found
      branch; otherwise the stored rows are deduplicated and sorted, and each
      is rendered as its short name or in detailed form. */
  function ListUsersInGroup(st: Store, name: string, detailed: bool): (r: MemberListing)
    ensures r.NotFound? <==> Lookup(st, name) == []
    ensures r.Found? ==> StrictlySorted(r.members)
    ensures r.Found? ==> forall x :: x in r.members <==> x in Lookup(st, name)
    ensures r.Found? ==> |r.members| <= |Lookup(st, name)|
    ensures r.Found? ==> |r.members| == DistinctCount(Lookup(st, name))
    ensures r.Found? ==> |r.lines| == |r.members|
    ensures r.Found? && !detailed ==> forall i :: 0 <= i < |r.lines| ==> r.lines[i] == r.members[i].sam
    ensures r.Found? && detailed ==> forall i :: 0 <= i < |r.lines| ==> r.lines[i] == DetailLine(r.members[i])
  {
    var users := Lookup(st, name);
    if users == [] then NotFound
    else
      var unique := SortUnique(users);
      StrictlySortedCard(unique);
      assert (set m | m in unique) == (set m | m in users);
      Found(unique, Render(unique, detailed))
  }

  /** The count a group shows in the group listing is the number of lines
      its member listing prints. */
  lemma GroupCountMatchesMemberListing(st: Store, mode: SortMode, i: nat, detailed: bool)
    requires Valid(st)
    requires i < |ListUniqueGroups(st, mode).lines|
    ensures var line := ListUniqueGroups(st, mode).lines[i];
      var members := ListUsersInGroup(st, line.name, detailed);
      members.Found? && |members.lines| == line.count
  {
    var line := ListUniqueGroups(st, mode).lines[i];
    ListedCount(st, mode, i);
    LookupNonEmptyIffKey(st, line.name);
  }

}
