/**
  The organization store: one transaction per request over the tables of used addresses and of constraints.
*/
module OrgStore {
  import opened Wrappers
  import opened LoraField
  import opened DevAddrAllocator
  import opened OrgLeases

  lemma RangeIsFreeIff(s: Leases, oui: nat, h: HeliumNetId, c: DevAddrConstraint)
    ensures LeaseRange(s, oui, h, c).Some? <==> c.start <= c.end && forall a | c.start <= a <= c.end :: a !in s.used
  {
    if a :| c.start <= a <= c.end && a in s.used { SpanMembers(c.start, c.end + 1, a); }
    if a :| a in Span(c.start, c.end + 1) && a in s.used { SpanMembers(c.start, c.end + 1, a); }
  }

  class Store {
    const table: AddressTable
    var rows: set<Row>
    var nextOui: nat

    constructor ()
      ensures fresh(table) && State() == Empty && table.Valid()
    {
      var addresses := new AddressTable();
      table := addresses;
      rows := {};
      nextOui := 1;
    }

    ghost function State(): Leases
      reads this, table
    {
      Leases(table.used, rows, nextOui)
    }

    /** Checks out a slab and inserts its constraints (`add_devaddr_slab`). */
    method AddSlab(oui: nat, h: HeliumNetId, count: nat) returns (ok: bool)
      requires table.Valid()
      modifies this`rows, table
      ensures ok <==> LeaseSlab(old(State()), oui, h, count).Some?
      ensures ok ==> table.Valid() && State() == LeaseSlab(old(State()), oui, h, count).value
      ensures !ok ==> rows == old(rows)
    {
      assert table.UsedBy(h) == UsedBy(State(), h);
      var r := table.CheckoutConstraints(count, h);
      if r.Err? {
        return false;
      }
      rows := rows + RowsFor(oui, NetIdOf(h), r.value);
      return true;
    }

    /** Checks out one given range and inserts it (`add_constraint_update`). */
    method AddRange(oui: nat, h: HeliumNetId, c: DevAddrConstraint) returns (ok: bool)
      requires table.Valid() && c.end < U32
      modifies this`rows, table
      ensures ok <==> LeaseRange(old(State()), oui, h, c).Some?
      ensures ok ==> table.Valid() && State() == LeaseRange(old(State()), oui, h, c).value
      ensures !ok ==> rows == old(rows)
    {
      RangeIsFreeIff(State(), oui, h, c);
      var r := table.CheckoutSpecified(h, c);
      if r.Err? {
        return false;
      }
      rows := rows + {Row(oui, NetIdOf(h), c)};
      return true;
    }

    /** Releases the addresses of a held range and deletes its row (`remove_constraint_update`). */
    method RemoveRange(oui: nat, h: HeliumNetId, held: set<DevAddrConstraint>, c: DevAddrConstraint) returns (ok: bool)
      modifies this`rows, table
      ensures ok <==> c in held && 1 < |held|
      ensures State() == if ok then ReleaseRange(old(State()), oui, h, c) else old(State())
    {
      if c !in held || |held| <= 1 {
        return false;
      }
      forall a: nat ensures a in Span(c.start, c.end + 1) <==> Covers(c, a) { SpanMembers(c.start, c.end + 1, a); }
      table.ReleaseAddrs(h, Span(c.start, c.end + 1));
      rows := set r | r in rows && !(r.oui == oui && r.range == c);
      return true;
    }

    method UpdateOne(oui: nat, h: HeliumNetId, held: set<DevAddrConstraint>, u: Update) returns (ok: bool)
      requires table.Valid() && (u.AddConstraint? ==> u.range.end < U32)
      modifies this`rows, table
      ensures ok <==> ApplyUpdate(old(State()), oui, h, held, u).Some?
      ensures ok ==> State() == ApplyUpdate(old(State()), oui, h, held, u).value && table.Valid()
    {
      match u
      case Devaddrs(count) => ok := AddSlab(oui, h, count);
      case AddConstraint(c) => ok := AddRange(oui, h, c);
      case RemoveConstraint(c) => ok := RemoveRange(oui, h, held, c);
      case _ => ok := true;
    }

    /** The table of addresses goes back to what it was when the transaction began. */
    method RollBack(used: map<nat, HeliumNetId>, rows: set<Row>)
      modifies this`rows, table
      ensures table.used == used && this.rows == rows
    {
      table.used := used;
      this.rows := rows;
    }

    /** `update_org`: the updates in order, rolled back at the first one that is refused. */
    method UpdateOrg(oui: nat, netId: nat, admin: bool, updates: seq<Update>) returns (ok: bool)
      requires table.Valid() && forall i :: 0 <= i < |updates| && updates[i].AddConstraint? ==> updates[i].range.end < U32
      modifies this`rows, table
      ensures ok <==> Change(old(State()), oui, netId, admin, updates).Some?
      ensures State() == if ok then Change(old(State()), oui, netId, admin, updates).value else old(State())
      ensures table.Valid()
    {
      if !exists r | r in rows :: r.oui == oui && r.netId == netId {
        return false;
      }
      var began, held := table.used, set r | r in rows && r.oui == oui :: r.range;
      var beganRows := rows;
      assert held == RangesOf(State(), oui);
      var i := 0;
      while i < |updates|
        invariant i <= |updates| && table.Valid()
        invariant forall k :: 0 <= k < i ==> Allowed(admin, netId, updates[k])
        invariant Helium(netId) == None ==> State() == old(State())
        invariant Helium(netId).Some? ==>
                    var h := Helium(netId).value;
                    ApplyUpdates(old(State()), oui, h, held, updates) == ApplyUpdates(State(), oui, h, held, updates[i..])
      {
        if !Allowed(admin, netId, updates[i]) {
          RollBack(began, beganRows);
          return false;
        }
        if Helium(netId).Some? {
          assert updates[i..][1..] == updates[i + 1..];
          var done := UpdateOne(oui, Helium(netId).value, held, updates[i]);
          if !done {
            RollBack(began, beganRows);
            return false;
          }
        }
        i := i + 1;
      }
      return true;
    }
  }
}
