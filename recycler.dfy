/** One sweep of the recycler: scan the cooldown pool, keep the entries that
    are still waiting (and every line without a '|'), and release the
    accounts whose cooldown has run out. A line whose timestamp does not
    parse raises before anything is written, so the whole sweep is dropped. */
module Recycler {
  import opened PoolFormat

  /** A cooldown line whose entry is due for release at `now`. */
  predicate Due(line: string, now: int)
    ensures Due(line, now) ==> '|' in line && !ParseLine(line).BadStamp?
  {
    ParseLine(line).Stamped? && Expired(ParseLine(line).ts, now)
  }

  /** The lines a sweep at `now` keeps in cooldown, in their order. */
  function Retained(s: seq<string>, now: int): (r: seq<string>)
    ensures |r| <= |s|
  {
    if s == [] then []
    else (if Due(s[0], now) then [] else [s[0]]) + Retained(s[1..], now)
  }

  /** The accounts a sweep at `now` appends to the released pool, in order:
      at most one per line. */
  function Moved(s: seq<string>, now: int): (r: seq<string>)
    ensures |r| <= |s|
  {
    if s == [] then []
    else (if Due(s[0], now) then [ParseLine(s[0]).account] else []) + Moved(s[1..], now)
  }

  /** Some line has a '|' but its prefix is not a timestamp. */
  predicate HasBadStamp(s: seq<string>)
  {
    exists i :: 0 <= i < |s| && ParseLine(s[i]).BadStamp?
  }

  datatype SweepResult =
    | Aborted
    | Swept(retained: seq<string>, moved: seq<string>)

  /** What one sweep does with the cooldown lines `s` at time `now`: it is
      dropped exactly when some line has a bad timestamp; otherwise it
      keeps only lines of `s` that are not due. */
  function Partition(s: seq<string>, now: int): (r: SweepResult)
    ensures r.Aborted? <==> exists i :: 0 <= i < |s| && ParseLine(s[i]).BadStamp?
    ensures r.Swept? ==> forall x :: x in r.retained ==> x in s && !Due(x, now)
  {
    assert forall x :: x in Retained(s, now) ==> x in s && !Due(x, now) by {
      forall x | x in Retained(s, now) ensures x in s && !Due(x, now) {
        RetainedMembers(s, now, x);
      }
    }
    if HasBadStamp(s) then Aborted else Swept(Retained(s, now), Moved(s, now))
  }

  /** The accounts recorded in cooldown entries (lines that parse). */
  function CooldownAccounts(s: seq<string>): seq<string>
  {
    if s == [] then []
    else (if ParseLine(s[0]).Stamped? then [ParseLine(s[0]).account] else [])
         + CooldownAccounts(s[1..])
  }

  /** The lines without a '|' (blank or malformed), in order. */
  function UntimedLines(s: seq<string>): seq<string>
  {
    if s == [] then []
    else (if ParseLine(s[0]).Untimed? then [s[0]] else []) + UntimedLines(s[1..])
  }

  /** The loop of the recycler: walk the lines once, collecting the ones to
      keep and the accounts to move; stop at the first bad timestamp. */
  method ScanCooldown(lines: seq<string>, now: int) returns (r: SweepResult)
    ensures r == Partition(lines, now)
  {
    var remaining: seq<string> := [];
    var moved: seq<string> := [];
    var i := 0;
    while i < |lines|
      invariant 0 <= i <= |lines|
      invariant forall j :: 0 <= j < i ==> !ParseLine(lines[j]).BadStamp?
      invariant remaining == Retained(lines[..i], now)
      invariant moved == Moved(lines[..i], now)
    {
      var line := lines[i];
      ScanStep(lines, i, now);
      match ParseLine(line) {
        case Untimed =>
          remaining := remaining + [line];
        case BadStamp =>
          assert HasBadStamp(lines) by {
            assert ParseLine(lines[i]).BadStamp?;
          }
          return Aborted;
        case Stamped(ts, account) =>
          if Expired(ts, now) {
            moved := moved + [account];
          } else {
            remaining := remaining + [line];
          }
      }
      i := i + 1;
    }
    assert lines[..i] == lines;
    assert !HasBadStamp(lines);
    r := Swept(remaining, moved);
  }

  /** What one more line adds to the partition of a prefix. */
  lemma ScanStep(lines: seq<string>, i: nat, now: int)
    requires i < |lines|
    ensures Retained(lines[..i + 1], now)
            == Retained(lines[..i], now) + (if Due(lines[i], now) then [] else [lines[i]])
    ensures Moved(lines[..i + 1], now)
            == Moved(lines[..i], now) + (if Due(lines[i], now) then [ParseLine(lines[i]).account] else [])
  {
    assert lines[..i + 1] == lines[..i] + [lines[i]];
    RetainedAppend(lines[..i], [lines[i]], now);
    MovedAppend(lines[..i], [lines[i]], now);
    SweepOneLine(lines[i], now);
  }

  // ---------------------------------------------------------------------
  // Properties of a sweep

  /** Order: a sweep treats every line on its own, so the kept lines keep
      their relative order. */
  lemma {:induction false} RetainedAppend(s: seq<string>, t: seq<string>, now: int)
    ensures Retained(s + t, now) == Retained(s, now) + Retained(t, now)
  {
    if s != [] {
      assert (s + t)[1..] == s[1..] + t;
      RetainedAppend(s[1..], t, now);
    } else {
      assert s + t == t;
    }
  }

  /** Order: the released accounts come out in the order of their lines. */
  lemma {:induction false} MovedAppend(s: seq<string>, t: seq<string>, now: int)
    ensures Moved(s + t, now) == Moved(s, now) + Moved(t, now)
  {
    if s != [] {
      assert (s + t)[1..] == s[1..] + t;
      MovedAppend(s[1..], t, now);
    } else {
      assert s + t == t;
    }
  }

  /** Partition: every line is either kept or has its account released,
      never both and never dropped. */
  lemma {:induction false} PartitionConserves(s: seq<string>, now: int)
    ensures |Retained(s, now)| + |Moved(s, now)| == |s|
  {
    if s != [] {
      PartitionConserves(s[1..], now);
    }
  }

  /** No premature promotion, and nothing due is kept: a line stays in
      cooldown exactly when it was there and is not due. */
  lemma {:induction false} RetainedMembers(s: seq<string>, now: int, x: string)
    ensures x in Retained(s, now) <==> x in s && !Due(x, now)
  {
    if s != [] {
      RetainedMembers(s[1..], now, x);
      assert s == [s[0]] + s[1..];
    }
  }

  /** An account is released exactly when some line carrying it is due. */
  lemma {:induction false} MovedMembers(s: seq<string>, now: int, a: string)
    ensures a in Moved(s, now) <==>
            exists i :: 0 <= i < |s| && Due(s[i], now) && ParseLine(s[i]).account == a
  {
    if s != [] {
      MovedMembers(s[1..], now, a);
      if a in Moved(s[1..], now) {
        var i :| 0 <= i < |s[1..]| && Due(s[1..][i], now) && ParseLine(s[1..][i]).account == a;
        assert Due(s[i + 1], now) && ParseLine(s[i + 1]).account == a;
      }
      if exists i :: 0 <= i < |s| && Due(s[i], now) && ParseLine(s[i]).account == a {
        var i :| 0 <= i < |s| && Due(s[i], now) && ParseLine(s[i]).account == a;
        if i > 0 {
          assert s[1..][i - 1] == s[i];
        }
      }
    }
  }

  /** Malformed-line survival: the lines without a '|' are all still in
      cooldown, unchanged and in their original relative order. */
  lemma {:induction false} UntimedSurvive(s: seq<string>, now: int)
    ensures UntimedLines(Retained(s, now)) == UntimedLines(s)
  {
    if s != [] {
      UntimedSurvive(s[1..], now);
      var head := if Due(s[0], now) then [] else [s[0]];
      UntimedAppend(head, Retained(s[1..], now));
      if !Due(s[0], now) {
        assert [s[0]][1..] == [];
      }
    }
  }

  lemma {:induction false} UntimedAppend(s: seq<string>, t: seq<string>)
    ensures UntimedLines(s + t) == UntimedLines(s) + UntimedLines(t)
  {
    if s != [] {
      assert (s + t)[1..] == s[1..] + t;
      UntimedAppend(s[1..], t);
    } else {
      assert s + t == t;
    }
  }

  /** A sweep releases nothing exactly when no line is due, and then it
      leaves the cooldown lines as they were. */
  lemma {:induction false} NothingDue(s: seq<string>, now: int)
    ensures Moved(s, now) == [] <==> forall i :: 0 <= i < |s| ==> !Due(s[i], now)
    ensures Moved(s, now) == [] ==> Retained(s, now) == s
  {
    if s != [] {
      NothingDue(s[1..], now);
      if Moved(s, now) == [] {
        assert s == [s[0]] + s[1..];
      } else if !Due(s[0], now) {
        assert forall i :: 0 <= i < |s[1..]| ==> s[1..][i] == s[i + 1];
      }
      if forall i :: 0 <= i < |s| ==> !Due(s[i], now) {
        assert !Due(s[0], now);
        assert forall i :: 0 <= i < |s[1..]| ==> !Due(s[1..][i], now) by {
          forall i | 0 <= i < |s[1..]| ensures !Due(s[1..][i], now) {
            assert s[1..][i] == s[i + 1];
          }
        }
      }
    }
  }

  /** A second sweep at the same time finds nothing more to release. */
  lemma {:induction false} SweepIdempotent(s: seq<string>, now: int)
    ensures Moved(Retained(s, now), now) == []
    ensures Retained(Retained(s, now), now) == Retained(s, now)
  {
    if s != [] {
      SweepIdempotent(s[1..], now);
      var head := if Due(s[0], now) then [] else [s[0]];
      RetainedAppend(head, Retained(s[1..], now), now);
      MovedAppend(head, Retained(s[1..], now), now);
      if !Due(s[0], now) {
        assert [s[0]][1..] == [];
      }
    }
  }

  /** Conservation of accounts: the accounts still in cooldown plus the
      released ones are exactly the accounts that were in cooldown. */
  lemma {:induction false} SweepConservesAccounts(s: seq<string>, now: int)
    ensures multiset(CooldownAccounts(Retained(s, now))) + multiset(Moved(s, now))
            == multiset(CooldownAccounts(s))
  {
    if s != [] {
      var h, rest := [s[0]], s[1..];
      SweepConservesAccounts(rest, now);
      SweepCons(s, now);
      HeadConserves(s[0], now);
      CooldownAccountsAppend(Retained(h, now), Retained(rest, now));
      Regroup(CooldownAccounts(Retained(h, now)), CooldownAccounts(Retained(rest, now)),
              Moved(h, now), Moved(rest, now), CooldownAccounts(h), CooldownAccounts(rest));
    }
  }

  /** A sweep splits off the first line. */
  lemma SweepCons(s: seq<string>, now: int)
    requires s != []
    ensures Retained(s, now) == Retained([s[0]], now) + Retained(s[1..], now)
    ensures Moved(s, now) == Moved([s[0]], now) + Moved(s[1..], now)
    ensures CooldownAccounts(s) == CooldownAccounts([s[0]]) + CooldownAccounts(s[1..])
  {
    assert s == [s[0]] + s[1..];
    RetainedAppend([s[0]], s[1..], now);
    MovedAppend([s[0]], s[1..], now);
    CooldownAccountsAppend([s[0]], s[1..]);
  }

  /** The account of one line is either kept in cooldown or moved. */
  lemma HeadConserves(line: string, now: int)
    ensures CooldownAccounts(Retained([line], now)) + Moved([line], now) == CooldownAccounts([line])
  {
    assert [line][1..] == [];
  }

  lemma Regroup(a: seq<string>, k: seq<string>, m: seq<string>, n: seq<string>, c: seq<string>, d: seq<string>)
    requires a + m == c && multiset(k) + multiset(n) == multiset(d)
    ensures multiset(a + k) + multiset(m + n) == multiset(c + d)
  {
    assert multiset(c) == multiset(a) + multiset(m);
  }

  lemma {:induction false} CooldownAccountsAppend(s: seq<string>, t: seq<string>)
    ensures CooldownAccounts(s + t) == CooldownAccounts(s) + CooldownAccounts(t)
  {
    if s != [] {
      assert (s + t)[1..] == s[1..] + t;
      CooldownAccountsAppend(s[1..], t);
    } else {
      assert s + t == t;
    }
  }

  /** The line allocation appends records exactly its account. */
  lemma AllocatedAccount(s: seq<string>, ts: int, account: string)
    ensures CooldownAccounts(s + [FormatLine(ts, account)]) == CooldownAccounts(s) + [account]
  {
    var line := FormatLine(ts, account);
    ParseFormatLine(ts, account);
    CooldownAccountsAppend(s, [line]);
    assert [line][1..] == [];
  }

  /** A sweep of a single line. */
  lemma SweepOneLine(line: string, now: int)
    ensures Retained([line], now) == if Due(line, now) then [] else [line]
    ensures Moved([line], now) == if Due(line, now) then [ParseLine(line).account] else []
  {
    assert [line][1..] == [];
  }

  /** The entry an allocation appends at `ts` is released by a sweep at
      `now` exactly when the cooldown has run out, and then exactly its
      account is appended to what the earlier lines release. */
  lemma SweepAfterAllocation(s: seq<string>, ts: int, account: string, now: int)
    ensures Retained(s + [FormatLine(ts, account)], now)
            == Retained(s, now) + (if Expired(ts, now) then [] else [FormatLine(ts, account)])
    ensures Moved(s + [FormatLine(ts, account)], now)
            == Moved(s, now) + (if Expired(ts, now) then [account] else [])
    ensures CooldownAccounts(s + [FormatLine(ts, account)]) == CooldownAccounts(s) + [account]
  {
    var line := FormatLine(ts, account);
    ParseFormatLine(ts, account);
    RetainedAppend(s, [line], now);
    MovedAppend(s, [line], now);
    CooldownAccountsAppend(s, [line]);
    assert [line][1..] == [];
    assert Due(line, now) == Expired(ts, now);
    assert Retained([line], now) == if Expired(ts, now) then [] else [line];
    assert Moved([line], now) == if Expired(ts, now) then [account] else [];
    assert CooldownAccounts([line]) == [account];
  }
}
