/** Concrete runs of the pool lifecycle, checked against the contracts of
    AccountPool alone. */
module Scenarios {
  import opened PoolFormat
  import opened Recycler
  import opened AccountPools

  /** available = [A, B]: allocate A at t0, then sweep one cooldown period
      later; A ends up released and B is still available. */
  method AllocateThenRelease(t0: int)
  {
    TwoAccounts();
    var pool := new AccountPool(true, ["A", "B"], [], []);
    var res := pool.Allocate(0, t0);
    assert res == Ok("A") && pool.available == ["B"];
    assert pool.cooldown == [FormatLine(t0, "A")];

    ReleasedAfterCooldown(t0, "A");
    pool.Sweep(t0 + CooldownSeconds);
    assert pool.cooldown == [] && pool.released == ["A"] && pool.available == ["B"];
  }

  lemma TwoAccounts()
    ensures NonBlank(["A", "B"]) == ["A", "B"]
    ensures RemoveFirst(["A", "B"], "A") == ["B"]
  {
    NonBlankUnchanged(["A", "B"]);
    assert FirstIndex(["A", "B"], "A") == 0;
  }

  lemma ReleasedAfterCooldown(t0: int, account: string)
    ensures Partition([FormatLine(t0, account)], t0 + CooldownSeconds) == Swept([], [account])
  {
    var line := FormatLine(t0, account);
    ParseFormatLine(t0, account);
    SweepOneLine(line, t0 + CooldownSeconds);
    assert !ParseLine([line][0]).BadStamp?;
  }

  /** An empty available pool: nothing is handed out and nothing moves;
      a missing one reports the database error. */
  method EmptyStock(now: int)
  {
    var pool := new AccountPool(true, ["", ""], ["junk"], ["C"]);
    var res := pool.Allocate(0, now);
    assert res == OutOfStock;
    assert pool.available == ["", ""] && pool.cooldown == ["junk"] && pool.released == ["C"];

    var gone := new AccountPool(false, [], [], []);
    res := gone.Allocate(0, now);
    assert res == DatabaseError;
  }

  /** One line without a '|' beside two expired entries: the line stays,
      both accounts are released in order. */
  method MalformedLineSurvives(now: int)
  {
    var x := FormatLine(now - CooldownSeconds, "X");
    var y := FormatLine(now - 2 * CooldownSeconds, "Y");
    ParseFormatLine(now - CooldownSeconds, "X");
    ParseFormatLine(now - 2 * CooldownSeconds, "Y");
    assert '|' !in "junk";
    SweepAroundUntimed(x, "junk", y, now);
    var pool := new AccountPool(true, [], [x, "junk", y], []);
    pool.Sweep(now);
    assert pool.cooldown == ["junk"] && pool.released == ["X", "Y"];
  }

  lemma SweepAroundUntimed(x: string, z: string, y: string, now: int)
    requires ParseLine(x) == Stamped(now - CooldownSeconds, "X")
    requires '|' !in z
    requires ParseLine(y) == Stamped(now - 2 * CooldownSeconds, "Y")
    ensures Partition([x, z, y], now) == Swept([z], ["X", "Y"])
  {
    var lines := [x, z, y];
    assert lines == [x] + [z] + [y];
    assert Retained(lines, now) == [z] by {
      SweepOneLine(x, now);
      SweepOneLine(z, now);
      SweepOneLine(y, now);
      RetainedAppend([x] + [z], [y], now);
      RetainedAppend([x], [z], now);
    }
    assert Moved(lines, now) == ["X", "Y"] by {
      SweepOneLine(x, now);
      SweepOneLine(z, now);
      SweepOneLine(y, now);
      MovedAppend([x] + [z], [y], now);
      MovedAppend([x], [z], now);
    }
    assert !HasBadStamp(lines) by {
      assert forall i :: 0 <= i < 3 ==> !ParseLine(lines[i]).BadStamp?;
    }
  }

  /** A '|' with a non-numeric prefix aborts the whole sweep, even though
      the other entry has expired. */
  method BadStampAborts(now: int)
  {
    var x := FormatLine(now - CooldownSeconds, "X");
    assert Partition([x, "soon|Z"], now) == Aborted by {
      NonNumericStamp();
      assert ParseLine([x, "soon|Z"][1]).BadStamp?;
    }
    var pool := new AccountPool(true, [], [x, "soon|Z"], []);
    pool.Sweep(now);
    assert pool.cooldown == [x, "soon|Z"] && pool.released == [];
  }

  lemma NonNumericStamp()
    ensures ParseLine("soon|Z") == BadStamp
  {
    assert !IsDigit("soon"[0]);
    assert ParseTimestamp("soon") == None;
    FirstBarAfter("soon", "|Z");
    assert "soon" + "|Z" == "soon|Z";
    assert "soon|Z"[..4] == "soon";
  }
}
