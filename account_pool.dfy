/** The three account pools and the two operations that move accounts
    between them: allocation (hits.txt -> temp_used.txt) and one recycler
    sweep (temp_used.txt -> accoun.txt). Each pool is the sequence of its
    stripped lines. */
module AccountPools {
  import opened PoolFormat
  import opened Recycler

  /** The three outcomes of a request for an account. */
  datatype Outcome = Ok(account: string) | OutOfStock | DatabaseError

  /** The lines allocation reads from hits.txt: blank lines dropped. */
  function NonBlank(s: seq<string>): (r: seq<string>)
    ensures "" !in r
    ensures |r| <= |s|
  {
    if s == [] then []
    else (if s[0] == "" then [] else [s[0]]) + NonBlank(s[1..])
  }

  /** The lines read are exactly the non-blank lines of the file. */
  lemma {:induction false} NonBlankMembers(s: seq<string>, x: string)
    ensures x in NonBlank(s) <==> x in s && x != ""
  {
    if s != [] {
      NonBlankMembers(s[1..], x);
      assert s == [s[0]] + s[1..];
    }
  }

  lemma NonBlankAll(s: seq<string>)
    ensures forall x :: x in NonBlank(s) <==> x in s && x != ""
  {
    forall x {
      NonBlankMembers(s, x);
    }
  }

  lemma {:induction false} NonBlankUnchanged(s: seq<string>)
    requires "" !in s
    ensures NonBlank(s) == s
  {
    if s != [] {
      NonBlankUnchanged(s[1..]);
      assert s == [s[0]] + s[1..];
    }
  }

  /** The position `list.remove(x)` deletes: the first occurrence of `x`. */
  function FirstIndex(s: seq<string>, x: string): (k: nat)
    requires x in s
    ensures k < |s| && s[k] == x && x !in s[..k]
  {
    if s[0] == x then 0
    else
      var k := FirstIndex(s[1..], x) + 1;
      assert s[..k] == [s[0]] + s[1..][..k - 1];
      k
  }

  /** `list.remove(x)`: drop the first occurrence of `x` and keep the rest
      in order. */
  function RemoveFirst(s: seq<string>, x: string): (r: seq<string>)
    requires x in s
    ensures |r| == |s| - 1
  {
    var k := FirstIndex(s, x);
    s[..k] + s[k + 1..]
  }

  /** `list.remove(x)` takes away exactly one copy of `x`. */
  lemma RemoveFirstCount(s: seq<string>, x: string)
    requires x in s
    ensures multiset(RemoveFirst(s, x)) == multiset(s) - multiset{x}
  {
    var k := FirstIndex(s, x);
    assert s == s[..k] + [x] + s[k + 1..];
  }

  /** The available pool an allocation writes back has no blank line. */
  lemma RemoveFirstNonBlank(lines: seq<string>, x: string)
    requires x in lines && "" !in lines
    ensures NonBlank(RemoveFirst(lines, x)) == RemoveFirst(lines, x)
  {
    var rest := RemoveFirst(lines, x);
    var k := FirstIndex(lines, x);
    assert forall i :: 0 <= i < |rest| ==> rest[i] in lines by {
      forall i | 0 <= i < |rest| ensures rest[i] in lines {
        if i < k { assert rest[i] == lines[i]; } else { assert rest[i] == lines[i + 1]; }
      }
    }
    NonBlankUnchanged(rest);
  }

  /** An allocation moves one account from the available lines to the
      cooldown pool: no account is lost or duplicated. */
  lemma AllocationConserves(lines: seq<string>, x: string, cooldown: seq<string>, now: int)
    requires x in lines
    ensures multiset(RemoveFirst(lines, x)) + multiset(CooldownAccounts(cooldown + [FormatLine(now, x)]))
            == multiset(lines) + multiset(CooldownAccounts(cooldown))
  {
    var rest := RemoveFirst(lines, x);
    RemoveFirstCount(lines, x);
    AllocatedAccount(cooldown, now, x);
    calc {
      multiset(rest) + multiset(CooldownAccounts(cooldown + [FormatLine(now, x)]));
      multiset(rest) + multiset(CooldownAccounts(cooldown) + [x]);
      multiset(rest) + multiset{x} + multiset(CooldownAccounts(cooldown));
      { assert x in multiset(lines); }
      multiset(lines) + multiset(CooldownAccounts(cooldown));
    }
  }

  /** A sweep that is not dropped moves accounts from the cooldown pool to
      the end of the released pool: none is lost or duplicated. */
  lemma SweepMovesAccounts(stock: seq<string>, cooldown: seq<string>, released: seq<string>, now: int)
    requires Partition(cooldown, now).Swept?
    ensures var p := Partition(cooldown, now);
            |p.retained| + |released + p.moved| == |cooldown| + |released|
            && multiset(stock) + multiset(CooldownAccounts(p.retained)) + multiset(released + p.moved)
               == multiset(stock) + multiset(CooldownAccounts(cooldown)) + multiset(released)
  {
    PartitionConserves(cooldown, now);
    SweepConservesAccounts(cooldown, now);
  }

  class AccountPool {
    /** Whether hits.txt exists. */
    var hitsPresent: bool
    /** hits.txt: the accounts available for allocation. */
    var available: seq<string>
    /** temp_used.txt: "<timestamp>|<account>" lines on cooldown. */
    var cooldown: seq<string>
    /** accoun.txt: the released accounts. */
    var released: seq<string>

    constructor (hitsPresent: bool, available: seq<string>, cooldown: seq<string>, released: seq<string>)
      ensures this.hitsPresent == hitsPresent && this.available == available
      ensures this.cooldown == cooldown && this.released == released
    {
      this.hitsPresent := hitsPresent;
      this.available := available;
      this.cooldown := cooldown;
      this.released := released;
    }

    /** The accounts an allocation can hand out now: the non-blank lines
        of hits.txt, none when the file is missing. */
    function Stock(): (r: seq<string>)
      reads this
      ensures forall x :: x in r <==> hitsPresent && x in available && x != ""
    {
      NonBlankAll(available);
      if hitsPresent then NonBlank(available) else []
    }

    /** The accounts held by the pools, with multiplicity: the readable
        available accounts, the accounts of parsed cooldown entries and the
        released accounts. */
    function Inventory(): (r: multiset<string>)
      reads this
      ensures forall x :: x in r <==> x in Stock() || x in CooldownAccounts(cooldown) || x in released
    {
      multiset(Stock()) + multiset(CooldownAccounts(cooldown)) + multiset(released)
    }

    /** get_account: hand out the available account at position `pick`
        (standing for `random.choice`), remove its first occurrence from the
        available pool and start its cooldown at `now`. */
    method Allocate(pick: nat, now: int) returns (res: Outcome)
      requires hitsPresent && NonBlank(available) != [] ==> pick < |NonBlank(available)|
      modifies this
      ensures !old(hitsPresent) ==> res == DatabaseError
      ensures old(hitsPresent) ==> (res == OutOfStock <==> old(NonBlank(available)) == [])
      ensures res.Ok? <==> old(Stock()) != []
      ensures !res.Ok? ==> unchanged(this)
      ensures res.Ok? ==>
                var lines := old(NonBlank(available));
                hitsPresent && res.account == lines[pick]
                && res.account in old(available) && res.account != ""
                && available == RemoveFirst(lines, res.account)
                && cooldown == old(cooldown) + [FormatLine(now, res.account)]
                && released == old(released)
      ensures res.Ok? ==> |Stock()| == |old(Stock())| - 1 && |cooldown| == |old(cooldown)| + 1
      ensures Inventory() == old(Inventory())
    {
      if !hitsPresent {
        return DatabaseError;
      }
      var lines := NonBlank(available);
      if lines == [] {
        return OutOfStock;
      }
      var selected := lines[pick];
      ghost var before := lines;
      lines := RemoveFirst(lines, selected);
      available := lines;
      cooldown := cooldown + [FormatLine(now, selected)];
      res := Ok(selected);
      NonBlankMembers(old(available), selected);
      RemoveFirstNonBlank(before, selected);
      AllocationConserves(before, selected, old(cooldown), now);
    }

    /** One pass of recycle_worker at time `now`: keep the entries still
        waiting, append the accounts of the expired ones to the released
        pool; a bad timestamp aborts the pass with nothing written. */
    method Sweep(now: int)
      modifies this
      ensures Partition(old(cooldown), now).Aborted? ==> unchanged(this)
      ensures Partition(old(cooldown), now).Swept? ==>
                cooldown == Partition(old(cooldown), now).retained
                && released == old(released) + Partition(old(cooldown), now).moved
                && available == old(available) && hitsPresent == old(hitsPresent)
      ensures |cooldown| + |released| == old(|cooldown| + |released|)
      ensures Inventory() == old(Inventory())
    {
      ghost var stock := Stock();
      var r := ScanCooldown(cooldown, now);
      if r.Swept? {
        SweepMovesAccounts(stock, cooldown, released, now);
        cooldown := r.retained;
        if r.moved != [] {
          released := released + r.moved;
        } else {
          assert released + r.moved == released;
        }
        assert Stock() == stock;
      }
    }
  }
}
