/**
  Route data with soft deletes and its broadcast: a subscriber that replays the broadcast list of an update should hold
  the rows that are live in the table afterwards.

  One table stands for EUI pairs, devaddr ranges and session key filters; the value is the number of copies of a filter.
*/
module RouteReplica {
  datatype Item = Item(key: nat, value: nat, parses: bool)

  datatype Entry = Entry(value: nat, deleted: bool)

  datatype Action = Add(item: Item) | Remove(item: Item)

  type Table = map<nat, Entry>

  type Replica = map<nat, nat>

  function Live(t: Table): Replica {
    map k | k in t && !t[k].deleted :: t[k].value
  }

  function KeysOf(items: seq<Item>): set<nat> {
    set i | 0 <= i < |items| :: items[i].key
  }

  predicate AllParse(items: seq<Item>) {
    forall i :: 0 <= i < |items| ==> items[i].parses
  }

  predicate Distinct(items: seq<Item>) {
    forall i, j :: 0 <= i < j < |items| ==> items[i].key != items[j].key
  }

  /** An insert of one statement: it fails as a whole for an unparsable item or a key that is named twice. */
  predicate Insertable(items: seq<Item>) {
    AllParse(items) && Distinct(items)
  }

  function Inserted(t: Table, items: seq<Item>): Table {
    if items == [] then t
    else
      var n := |items| - 1;
      Inserted(t, items[..n])[items[n].key := Entry(items[n].value, false)]
  }

  function Deleted(t: Table, keys: set<nat>): Table {
    map k | k in t :: if k in keys then t[k].(deleted := true) else t[k]
  }

  /** The rows that a delete returns: the ones with these keys, also those deleted before, in some order. */
  ghost predicate Returns(t: Table, items: seq<Item>, rows: seq<Item>) {
    && Distinct(rows) && KeysOf(rows) == KeysOf(items) * t.Keys
    && forall i :: 0 <= i < |rows| && rows[i].key in t ==> rows[i].value == t[rows[i].key].value
  }

  // ---------------------------------------------------------------- subscribers

  function Replay(m: Replica, actions: seq<Action>): Replica {
    if actions == [] then m
    else
      var n := |actions| - 1;
      var before := Replay(m, actions[..n]);
      match actions[n]
      case Add(item) => before[item.key := item.value]
      case Remove(item) => before - {item.key}
  }

  function Adds(items: seq<Item>): (r: seq<Action>)
    ensures |r| == |items| && forall i :: 0 <= i < |items| ==> r[i] == Add(items[i])
  {
    seq(|items|, i requires 0 <= i < |items| => Add(items[i]))
  }

  function Removes(items: seq<Item>): (r: seq<Action>)
    ensures |r| == |items| && forall i :: 0 <= i < |items| ==> r[i] == Remove(items[i])
  {
    seq(|items|, i requires 0 <= i < |items| => Remove(items[i]))
  }

  /** The broadcast list: the added rows, then the removed ones. */
  function Broadcast(added: seq<Item>, removed: seq<Item>): seq<Action> {
    Adds(added) + Removes(removed)
  }

  lemma {:induction false} ReplayConcat(m: Replica, a: seq<Action>, b: seq<Action>)
    ensures Replay(m, a + b) == Replay(Replay(m, a), b)
    decreases |b|
  {
    if b == [] {
      assert a + b == a;
    } else {
      var n := |b| - 1;
      assert (a + b)[..|a| + n] == a + b[..n];
      ReplayConcat(m, a, b[..n]);
    }
  }

  lemma KeysOfNext(items: seq<Item>)
    requires items != []
    ensures KeysOf(items) == KeysOf(items[..|items| - 1]) + {items[|items| - 1].key}
  {
    var n := |items| - 1;
    forall k <- KeysOf(items) ensures k in KeysOf(items[..n]) + {items[n].key} {
      var i :| 0 <= i < |items| && items[i].key == k;
      if i < n { assert items[..n][i].key == k; }
    }
    forall k <- KeysOf(items[..n]) ensures k in KeysOf(items) {
      var i :| 0 <= i < n && items[..n][i].key == k;
      assert items[i].key == k;
    }
    assert items[n].key in KeysOf(items);
  }

  /** Removing rows, in any order, removes their keys. */
  lemma {:induction false} ReplayRemoves(m: Replica, items: seq<Item>)
    ensures Replay(m, Removes(items)) == m - KeysOf(items)
    decreases |items|
  {
    if items != [] {
      var n := |items| - 1;
      assert Removes(items)[..n] == Removes(items[..n]);
      ReplayRemoves(m, items[..n]);
      KeysOfNext(items);
    } else {
      assert KeysOf(items) == {};
    }
  }

  /** Replaying the additions does to the replica what the insert does to the live rows. */
  lemma {:induction false} ReplayAdds(t: Table, items: seq<Item>)
    ensures Replay(Live(t), Adds(items)) == Live(Inserted(t, items))
    decreases |items|
  {
    if items != [] {
      var n := |items| - 1;
      assert Adds(items)[..n] == Adds(items[..n]);
      ReplayAdds(t, items[..n]);
    }
  }

  lemma LiveDeleted(t: Table, keys: set<nat>)
    ensures Live(Deleted(t, keys)) == Live(t) - keys
  {}

  // ---------------------------------------------------------------- EUI pairs and devaddr ranges

  /** Rows are added, then removed, and broadcast in that order: every subscriber agrees after every update. */
  lemma EuiReplicaAgrees(t: Table, add: seq<Item>, remove: seq<Item>, removed: seq<Item>)
    requires Returns(Inserted(t, add), remove, removed)
    ensures Replay(Live(t), Broadcast(add, removed)) == Live(Deleted(Inserted(t, add), KeysOf(remove)))
  {
    var t1 := Inserted(t, add);
    ReplayConcat(Live(t), Adds(add), Removes(removed));
    ReplayAdds(t, add);
    ReplayRemoves(Live(t1), removed);
    LiveDeleted(t1, KeysOf(remove));
    assert Live(t1) - KeysOf(removed) == Live(t1) - KeysOf(remove);
  }

  // ---------------------------------------------------------------- session key filters

  /** A key that is both removed and added while the table has a row for it, be it deleted. */
  ghost predicate Clash(t: Table, add: seq<Item>, remove: seq<Item>) {
    exists k <- KeysOf(add) :: k in KeysOf(remove) && k in t
  }

  lemma {:induction false} AddedAreThere(m: Replica, items: seq<Item>, k: nat)
    requires k in KeysOf(items)
    ensures k in Replay(m, Adds(items))
    decreases |items|
  {
    var n := |items| - 1;
    assert Adds(items)[..n] == Adds(items[..n]);
    KeysOfNext(items);
    if k != items[n].key { AddedAreThere(m, items[..n], k); }
  }

  /** Keys that are not added can be removed before or after. */
  lemma {:induction false} RemoveCommutes(m: Replica, keys: set<nat>, items: seq<Item>)
    requires keys !! KeysOf(items)
    ensures Replay(m - keys, Adds(items)) == Replay(m, Adds(items)) - keys
    decreases |items|
  {
    if items != [] {
      var n := |items| - 1;
      assert Adds(items)[..n] == Adds(items[..n]);
      KeysOfNext(items);
      RemoveCommutes(m, keys, items[..n]);
    }
  }

  /** Filters are removed, then added, but broadcast the other way round: a subscriber agrees exactly when no key that
      already has a row is both added and removed. */
  lemma SkfReplicaAgreesIff(t: Table, add: seq<Item>, remove: seq<Item>, removed: seq<Item>)
    requires Returns(t, remove, removed)
    ensures Replay(Live(t), Broadcast(add, removed)) == Live(Inserted(Deleted(t, KeysOf(remove)), add))
       <==> !Clash(t, add, remove)
  {
    ReplayConcat(Live(t), Adds(add), Removes(removed));
    ReplayRemoves(Replay(Live(t), Adds(add)), removed);
    LiveDeleted(t, KeysOf(remove));
    ReplayAdds(Deleted(t, KeysOf(remove)), add);
    assert Live(t) - KeysOf(removed) == Live(t) - KeysOf(remove);
    SwapIff(Live(t), KeysOf(removed), add);
    assert KeysOf(removed) !! KeysOf(add) <==> !Clash(t, add, remove);
  }

  lemma SwapIff(m: Replica, keys: set<nat>, items: seq<Item>)
    ensures Replay(m, Adds(items)) - keys == Replay(m - keys, Adds(items)) <==> keys !! KeysOf(items)
  {
    if keys !! KeysOf(items) {
      RemoveCommutes(m, keys, items);
    } else {
      var k :| k in keys && k in KeysOf(items);
      AddedAreThere(m - keys, items, k);
    }
  }

  // ---------------------------------------------------------------- the updates

  class RouteTable {
    var rows: Table

    method InsertRows(items: seq<Item>) returns (ok: bool, added: seq<Item>)
      modifies this
      ensures ok == Insertable(items)
      ensures rows == if ok then Inserted(old(rows), items) else old(rows)
      ensures ok ==> added == items
    {
      if !Insertable(items) {
        return false, [];
      }
      var i := 0;
      while i < |items|
        invariant i <= |items| && rows == Inserted(old(rows), items[..i])
      {
        assert items[..i + 1][..i] == items[..i];
        rows := rows[items[i].key := Entry(items[i].value, false)];
        i := i + 1;
      }
      assert items[..i] == items;
      return true, items;
    }

    /** Marks the rows as deleted and returns them in some order. */
    method RemoveRows(items: seq<Item>) returns (ok: bool, removed: seq<Item>)
      modifies this
      ensures ok == AllParse(items)
      ensures rows == if ok then Deleted(old(rows), KeysOf(items)) else old(rows)
      ensures ok ==> Returns(old(rows), items, removed)
    {
      if !AllParse(items) {
        return false, [];
      }
      removed := SomeOrder(rows, KeysOf(items) * rows.Keys);
      rows := Deleted(rows, KeysOf(items));
      return true, removed;
    }

    /** `update_euis` and `update_devaddr_ranges`: additions first. A failed update is rolled back and not broadcast. */
    method UpdateEuis(add: seq<Item>, remove: seq<Item>) returns (ok: bool, broadcast: seq<Action>)
      modifies this
      ensures ok <==> Insertable(add) && AllParse(remove)
      ensures !ok ==> rows == old(rows) && broadcast == []
      ensures ok ==> rows == Deleted(Inserted(old(rows), add), KeysOf(remove))
      ensures Replay(old(Live(rows)), broadcast) == Live(rows)
    {
      var before := rows;
      var inserted, added := InsertRows(add);
      if !inserted {
        return false, [];
      }
      var deleted, removed := RemoveRows(remove);
      if !deleted {
        rows := before;
        return false, [];
      }
      EuiReplicaAgrees(before, add, remove, removed);
      return true, Broadcast(added, removed);
    }

    /** `update_skfs`: removals first, but broadcast last. */
    method UpdateSkfs(add: seq<Item>, remove: seq<Item>) returns (ok: bool, broadcast: seq<Action>)
      modifies this
      ensures ok <==> Insertable(add) && AllParse(remove)
      ensures !ok ==> rows == old(rows) && broadcast == []
      ensures ok ==> rows == Inserted(Deleted(old(rows), KeysOf(remove)), add)
      ensures ok ==> (Replay(old(Live(rows)), broadcast) == Live(rows) <==> !Clash(old(rows), add, remove))
    {
      var before := rows;
      var deleted, removed := RemoveRows(remove);
      if !deleted {
        return false, [];
      }
      var inserted, added := InsertRows(add);
      if !inserted {
        rows := before;
        return false, [];
      }
      SkfReplicaAgreesIff(before, add, remove, removed);
      return true, Broadcast(added, removed);
    }
  }

  method SomeOrder(t: Table, keys: set<nat>) returns (found: seq<Item>)
    requires keys <= t.Keys
    ensures Distinct(found) && KeysOf(found) == keys
    ensures forall i :: 0 <= i < |found| ==> found[i].key in t && found[i].value == t[found[i].key].value
  {
    found := [];
    var todo := keys;
    while todo != {}
      invariant todo <= keys && Distinct(found) && KeysOf(found) == keys - todo
      invariant forall i :: 0 <= i < |found| ==> found[i].key in t && found[i].value == t[found[i].key].value
      decreases |todo|
    {
      var k :| k in todo;
      var next := found + [Item(k, t[k].value, true)];
      forall i | 0 <= i < |found| ensures found[i].key != k { assert found[i].key in KeysOf(found); }
      assert next[..|found|] == found;
      KeysOfNext(next);
      found := next;
      todo := todo - {k};
    }
  }

  /** A filter that is updated by removing and adding it in one batch is lost by the subscribers. */
  lemma UpdatedFilterIsLost(k: nat, copies: nat, more: nat)
    ensures var t: Table := map[k := Entry(copies, false)];
            var add, remove := [Item(k, more, true)], [Item(k, copies, true)];
            && Live(Inserted(Deleted(t, KeysOf(remove)), add)) == map[k := more]
            && Replay(Live(t), Broadcast(add, remove)) == map[]
  {
    var t: Table := map[k := Entry(copies, false)];
    var add, remove := [Item(k, more, true)], [Item(k, copies, true)];
    assert remove[0].key in KeysOf(remove);
    assert Inserted(Deleted(t, KeysOf(remove)), add) == map[k := Entry(more, false)] by { assert add[..0] == []; }
    ReplayConcat(Live(t), Adds(add), Removes(remove));
    ReplayAdds(t, add);
    ReplayRemoves(Live(Inserted(t, add)), remove);
    assert Inserted(t, add) == map[k := Entry(more, false)] by { assert add[..0] == []; }
  }
}
