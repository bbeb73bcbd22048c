/** The `user_groups` dictionary and the aggregation loop of
    `parse_html_file` (ADdump-parse.py:16-35), with the regular-expression
    matches taken as input. */
module GroupStore {
  import opened Wrappers
  import opened Records

  /** One dictionary item: a group display name and its rows in append
      order, duplicates kept. */
  datatype Entry = Entry(name: string, rows: seq<Member>)

  /** The dictionary as its items in insertion order, which is the order
      Python iterates a `dict` in. */
  type Store = seq<Entry>

  /** One match of the group pattern: the id used to find the group's table,
      the display name, and the user-row captures of that table, or None
      when the table search found nothing (ADdump-parse.py:24-27). */
  datatype GroupMarker = GroupMarker(id: string, name: string, table: Option<seq<RowCapture>>)

  /** The dictionary's keys in insertion order. */
  function Names(st: Store): seq<string> {
    seq(|st|, i requires 0 <= i < |st| => st[i].name)
  }

  lemma NamesTail(st: Store)
    requires st != []
    ensures Names(st) == [st[0].name] + Names(st[1..])
  {
  }

  /** Dictionary keys are unique. */
  ghost predicate UniqueNames(st: Store) {
    forall i, j :: 0 <= i < j < |st| ==> st[i].name != st[j].name
  }

  /** What `defaultdict(list)` filled only by `append` looks like: unique
      keys, and no key without at least one row. */
  ghost predicate Valid(st: Store) {
    && UniqueNames(st)
    && forall i :: 0 <= i < |st| ==> st[i].rows != []
  }

  /** `user_groups.get(name, [])`. */
  function Lookup(st: Store, name: string): seq<Member> {
    if st == [] then []
    else if st[0].name == name then st[0].rows
    else Lookup(st[1..], name)
  }

  lemma {:induction false} LookupAbsent(st: Store, name: string)
    requires name !in Names(st)
    ensures Lookup(st, name) == []
    decreases |st|
  {
    if st != [] {
      NamesTail(st);
      LookupAbsent(st[1..], name);
    }
  }

  lemma {:induction false} LookupAt(st: Store, i: nat)
    requires UniqueNames(st) && i < |st|
    ensures Lookup(st, st[i].name) == st[i].rows
    decreases i
  {
    if i > 0 {
      assert st[0].name != st[i].name;
      LookupAt(st[1..], i - 1);
    }
  }

  /** In a valid store a name is a key exactly when its lookup is
      non-empty. */
  lemma LookupNonEmptyIffKey(st: Store, name: string)
    requires Valid(st)
    ensures name in Names(st) <==> Lookup(st, name) != []
  {
    if name in Names(st) {
      var i :| 0 <= i < |st| && Names(st)[i] == name;
      LookupAt(st, i);
    } else {
      LookupAbsent(st, name);
    }
  }

  /** `user_groups[name].append(m)`: the first entry with that name gets
      the row, or a new entry is created at the end. */
  function Append(st: Store, name: string, m: Member): Store {
    if st == [] then [Entry(name, [m])]
    else if st[0].name == name then [Entry(name, st[0].rows + [m])] + st[1..]
    else [st[0]] + Append(st[1..], name, m)
  }

  /** Appending adds the row at the end of that name's rows and leaves every
      other name's rows alone. */
  lemma {:induction false} AppendLookup(st: Store, name: string, m: Member, n: string)
    ensures Lookup(Append(st, name, m), n) == if n == name then Lookup(st, n) + [m] else Lookup(st, n)
    decreases |st|
  {
    if st != [] && st[0].name != name {
      AppendLookup(st[1..], name, m, n);
    }
  }

  /** A new name becomes the last key; existing keys keep their places. */
  lemma {:induction false} AppendNames(st: Store, name: string, m: Member)
    ensures Names(Append(st, name, m)) == if name in Names(st) then Names(st) else Names(st) + [name]
    decreases |st|
  {
    if st != [] {
      assert Names(st) == [st[0].name] + Names(st[1..]);
      if st[0].name == name {
        var r := Append(st, name, m);
        assert Names(r) == [name] + Names(st[1..]);
      } else {
        AppendNames(st[1..], name, m);
        var r := Append(st, name, m);
        assert Names(r) == [st[0].name] + Names(Append(st[1..], name, m));
      }
    }
  }

  lemma {:induction false} AppendValid(st: Store, name: string, m: Member)
    requires Valid(st)
    ensures Valid(Append(st, name, m))
    decreases |st|
  {
    var r := Append(st, name, m);
    if st == [] {
    } else if st[0].name == name {
      assert forall i :: 0 <= i < |st| ==> r[i].name == st[i].name;
    } else {
      var rest := Append(st[1..], name, m);
      AppendValid(st[1..], name, m);
      AppendNames(st[1..], name, m);
      assert st[0].name !in Names(st[1..]);
      assert st[0].name !in Names(rest);
      forall j | 0 <= j < |rest|
        ensures rest[j].name != st[0].name
      {
        assert Names(rest)[j] == rest[j].name;
      }
    }
  }

  /** The inner loop of the aggregation: every capture of one table appended,
      in match order, under one display name. */
  function AppendAll(st: Store, name: string, caps: seq<RowCapture>): Store
    decreases |caps|
  {
    if caps == [] then st
    else AppendAll(Append(st, name, Project(caps[0])), name, caps[1..])
  }

  lemma {:induction false} AppendAllLookup(st: Store, name: string, caps: seq<RowCapture>, n: string)
    ensures Lookup(AppendAll(st, name, caps), n) == if n == name then Lookup(st, n) + ProjectAll(caps) else Lookup(st, n)
    decreases |caps|
  {
    if caps == [] {
      assert ProjectAll(caps) == [];
      assert Lookup(st, n) + [] == Lookup(st, n);
    } else {
      var m := Project(caps[0]);
      var st' := Append(st, name, m);
      var a, b := Lookup(st, n), ProjectAll(caps[1..]);
      if n == name {
        calc {
          Lookup(AppendAll(st, name, caps), n);
        ==
          Lookup(AppendAll(st', name, caps[1..]), n);
        == { AppendAllLookup(st', name, caps[1..], n); }
          Lookup(st', n) + b;
        == { AppendLookup(st, name, m, n); }
          (a + [m]) + b;
        ==
          a + ([m] + b);
        ==
          a + ProjectAll(caps);
        }
      } else {
        calc {
          Lookup(AppendAll(st, name, caps), n);
        ==
          Lookup(AppendAll(st', name, caps[1..]), n);
        == { AppendAllLookup(st', name, caps[1..], n); }
          Lookup(st', n);
        == { AppendLookup(st, name, m, n); }
          a;
        }
      }
    }
  }

  lemma {:induction false} AppendAllValid(st: Store, name: string, caps: seq<RowCapture>)
    requires Valid(st)
    ensures Valid(AppendAll(st, name, caps))
    decreases |caps|
  {
    if caps != [] {
      AppendValid(st, name, Project(caps[0]));
      AppendAllValid(Append(st, name, Project(caps[0])), name, caps[1..]);
    }
  }

  /** The member rows one marker contributes: the (cn, sam, flags)
      projection of each capture, or nothing when its table was not found. */
  function Captured(mk: GroupMarker): seq<Member> {
    match mk.table
    case None => []
    case Some(caps) => ProjectAll(caps)
  }

  /** Reference definition: every row any marker with display name `name`
      contributes, markers in document order. */
  function RowsFor(markers: seq<GroupMarker>, name: string): seq<Member> {
    if markers == [] then []
    else Contribution(markers[0], name) + RowsFor(markers[1..], name)
  }

  function AddMarker(st: Store, mk: GroupMarker): Store {
    match mk.table
    case None => st
    case Some(caps) => AppendAll(st, mk.name, caps)
  }

  function AggregateFrom(st: Store, markers: seq<GroupMarker>): Store
    decreases |markers|
  {
    if markers == [] then st
    else AggregateFrom(AddMarker(st, markers[0]), markers[1..])
  }

  /** The rows one marker adds under display name `n`. */
  function Contribution(mk: GroupMarker, n: string): seq<Member> {
    if mk.name == n then Captured(mk) else []
  }

  lemma AddMarkerLookup(st: Store, mk: GroupMarker, n: string)
    ensures Lookup(AddMarker(st, mk), n) == Lookup(st, n) + Contribution(mk, n)
  {
    match mk.table
    case None =>
      assert Lookup(st, n) + [] == Lookup(st, n);
    case Some(caps) =>
      AppendAllLookup(st, mk.name, caps, n);
      if mk.name != n {
        assert Lookup(st, n) + [] == Lookup(st, n);
      }
  }

  lemma {:induction false} AggregateFromLookup(st: Store, markers: seq<GroupMarker>, n: string)
    ensures Lookup(AggregateFrom(st, markers), n) == Lookup(st, n) + RowsFor(markers, n)
    decreases |markers|
  {
    if markers == [] {
      assert Lookup(st, n) + [] == Lookup(st, n);
    } else {
      var st' := AddMarker(st, markers[0]);
      var a, c, rest := Lookup(st, n), Contribution(markers[0], n), RowsFor(markers[1..], n);
      calc {
        Lookup(AggregateFrom(st, markers), n);
      ==
        Lookup(AggregateFrom(st', markers[1..]), n);
      == { AggregateFromLookup(st', markers[1..], n); }
        Lookup(st', n) + rest;
      == { AddMarkerLookup(st, markers[0], n); }
        (a + c) + rest;
      ==
        a + (c + rest);
      ==
        a + RowsFor(markers, n);
      }
    }
  }

  lemma {:induction false} AggregateFromValid(st: Store, markers: seq<GroupMarker>)
    requires Valid(st)
    ensures Valid(AggregateFrom(st, markers))
    decreases |markers|
  {
    if markers != [] {
      if markers[0].table.Some? {
        AppendAllValid(st, markers[0].name, markers[0].table.value);
      }
      AggregateFromValid(AddMarker(st, markers[0]), markers[1..]);
    }
  }

  // ---------------------------------------------------------------------
  // Key order

  /** Reference definition of the key order: the display names of the
      markers that contribute at least one row, in document order, each name
      kept where its first contributing marker stands. */
  function FirstNames(markers: seq<GroupMarker>): seq<string>
    decreases |markers|
  {
    if markers == [] then []
    else
      var names, mk := FirstNames(markers[..|markers| - 1]), markers[|markers| - 1];
      if Captured(mk) == [] || mk.name in names then names else names + [mk.name]
  }

  /** A marker with this display name contributes a row. */
  predicate Contributes(markers: seq<GroupMarker>, n: string) {
    exists i :: 0 <= i < |markers| && markers[i].name == n && Captured(markers[i]) != []
  }

  /** The key order holds every contributing display name exactly once. */
  lemma {:induction false} FirstNamesMeaning(markers: seq<GroupMarker>)
    ensures forall n :: n in FirstNames(markers) <==> Contributes(markers, n)
    ensures forall i, j :: 0 <= i < j < |FirstNames(markers)| ==> FirstNames(markers)[i] != FirstNames(markers)[j]
    decreases |markers|
  {
    if markers != [] {
      var init, mk := markers[..|markers| - 1], markers[|markers| - 1];
      FirstNamesMeaning(init);
      forall n
        ensures Contributes(markers, n) <==> Contributes(init, n) || (mk.name == n && Captured(mk) != [])
      {
        if Contributes(markers, n) {
          var i :| 0 <= i < |markers| && markers[i].name == n && Captured(markers[i]) != [];
          if i < |init| {
            assert init[i] == markers[i];
          }
        }
        if Contributes(init, n) {
          var i :| 0 <= i < |init| && init[i].name == n && Captured(init[i]) != [];
          assert markers[i] == init[i];
        }
      }
    }
  }

  /** One table's appends add its display name as the last key when the
      table has a row and the name is new, and otherwise keep the keys. */
  lemma {:induction false} AppendAllNames(st: Store, name: string, caps: seq<RowCapture>)
    ensures Names(AppendAll(st, name, caps)) ==
      if caps == [] || name in Names(st) then Names(st) else Names(st) + [name]
    decreases |caps|
  {
    if caps != [] {
      var st' := Append(st, name, Project(caps[0]));
      AppendNames(st, name, Project(caps[0]));
      assert name in Names(st');
      AppendAllNames(st', name, caps[1..]);
    }
  }

  lemma AddMarkerNames(st: Store, mk: GroupMarker)
    ensures Names(AddMarker(st, mk)) ==
      if Captured(mk) == [] || mk.name in Names(st) then Names(st) else Names(st) + [mk.name]
  {
    if mk.table.Some? {
      AppendAllNames(st, mk.name, mk.table.value);
    }
  }

  /** Processing one more marker at the end is one more `AddMarker`. */
  lemma {:induction false} AggregateFromSnoc(st: Store, markers: seq<GroupMarker>, mk: GroupMarker)
    ensures AggregateFrom(st, markers + [mk]) == AddMarker(AggregateFrom(st, markers), mk)
    decreases |markers|
  {
    if markers == [] {
      assert [] + [mk] == [mk];
    } else {
      assert (markers + [mk])[0] == markers[0];
      assert (markers + [mk])[1..] == markers[1..] + [mk];
      AggregateFromSnoc(AddMarker(st, markers[0]), markers[1..], mk);
    }
  }

  /** The dictionary's keys, in iteration order, are the first-contribution
      order of the display names. */
  lemma {:induction false} AggregateNames(markers: seq<GroupMarker>)
    ensures Names(AggregateFrom([], markers)) == FirstNames(markers)
    decreases |markers|
  {
    if markers != [] {
      var init, mk := markers[..|markers| - 1], markers[|markers| - 1];
      assert markers == init + [mk];
      AggregateFromSnoc([], init, mk);
      AggregateNames(init);
      AddMarkerNames(AggregateFrom([], init), mk);
    }
  }

  /** The loop of `parse_html_file` over all group markers. The result is a
      well-formed dictionary whose rows under each display name are exactly
      the projected captures of the markers carrying that name, in document
      order (markers sharing a name are merged), and whose keys are exactly
      the names that received at least one row, in the order their first
      row arrived. */
  function Aggregate(markers: seq<GroupMarker>): (r: Store)
    ensures Valid(r)
    ensures forall n :: Lookup(r, n) == RowsFor(markers, n)
    ensures forall n :: n in Names(r) <==> RowsFor(markers, n) != []
    ensures Names(r) == FirstNames(markers)
  {
    var r := AggregateFrom([], markers);
    AggregateFromValid([], markers);
    AggregateNames(markers);
    forall n
      ensures Lookup(r, n) == RowsFor(markers, n)
      ensures n in Names(r) <==> RowsFor(markers, n) != []
    {
      AggregateFromLookup([], markers, n);
      assert [] + RowsFor(markers, n) == RowsFor(markers, n);
      LookupNonEmptyIffKey(r, n);
    }
    r
  }

  /** Every stored row, group by group in dictionary order, the iteration
      order of `for group, users in user_groups.items()`. */
  function AllRows(st: Store): (r: seq<Member>)
    ensures forall m :: m in r <==> exists i :: 0 <= i < |st| && m in st[i].rows
  {
    if st == [] then []
    else
      var init := st[..|st| - 1];
      assert forall i :: 0 <= i < |init| ==> init[i] == st[i];
      AllRows(init) + st[|st| - 1].rows
  }

  /** Walking two stores one after the other meets the rows of the first,
      then the rows of the second. */
  lemma {:induction false} AllRowsConcat(a: Store, b: Store)
    ensures AllRows(a + b) == AllRows(a) + AllRows(b)
    decreases |b|
  {
    if b == [] {
      assert a + b == a;
    } else {
      var init := b[..|b| - 1];
      assert (a + b)[..|a + b| - 1] == a + init;
      assert (a + b)[|a + b| - 1] == b[|b| - 1];
      AllRowsConcat(a, init);
    }
  }

  /** Reference definition of the audit's walk over an aggregated
      dictionary: the rows of each display name in `names`, one name after
      the other, each name's rows in document order. */
  function RowsInNameOrder(markers: seq<GroupMarker>, names: seq<string>): seq<Member> {
    if names == [] then []
    else RowsInNameOrder(markers, names[..|names| - 1]) + RowsFor(markers, names[|names| - 1])
  }

  lemma {:induction false} AllRowsPrefix(st: Store, markers: seq<GroupMarker>, k: nat)
    requires UniqueNames(st) && k <= |st|
    requires forall n :: Lookup(st, n) == RowsFor(markers, n)
    ensures AllRows(st[..k]) == RowsInNameOrder(markers, Names(st)[..k])
    decreases k
  {
    if k > 0 {
      assert st[..k][..k - 1] == st[..k - 1];
      assert Names(st)[..k][..k - 1] == Names(st)[..k - 1];
      AllRowsPrefix(st, markers, k - 1);
      LookupAt(st, k - 1);
    }
  }

  /** The walk `for group, users in user_groups.items()` over the aggregated
      dictionary meets the groups in the order their first row appeared in
      the document, and each group's rows in document order. */
  lemma AggregateWalk(markers: seq<GroupMarker>)
    ensures AllRows(Aggregate(markers)) == RowsInNameOrder(markers, FirstNames(markers))
  {
    var r := Aggregate(markers);
    AllRowsPrefix(r, markers, |r|);
    assert r[..|r|] == r;
    assert Names(r)[..|r|] == Names(r);
  }

}
