# Account pool lifecycle

A model of the account-pool logic of `server.py`. Accounts live in three
line-oriented pools:

- `hits.txt` holds the available accounts.
- `temp_used.txt` holds the accounts on cooldown, one `"<timestamp>|<account>"` line each.
- `accoun.txt` holds the released accounts.

Accounts flow one way: available, then cooldown, then released.

- **Allocation** (`get_account`) reads the non-blank available lines. It answers
  "Database Error" when `hits.txt` is missing and "Out of Stock" when no line
  is left. Otherwise it picks one line, removes the first occurrence of that
  value, rewrites the available pool and appends `ts|account` to the cooldown pool.
- **Sweep** (one pass of `recycle_worker`) splits each cooldown line at its first
  `|` and parses the prefix as a timestamp. Entries whose 24-hour cooldown
  (`COOLDOWN_SECONDS = 86400`) has run out leave the cooldown pool, and their
  accounts are appended to the released pool in order. Lines without a `|` are
  kept verbatim. A `|` line whose prefix is not a number raises before anything
  is written, so that pass changes nothing. Because the line stays, every later
  pass aborts the same way until someone edits the file.

Files:

- `pool_format.dfy` (module `PoolFormat`): the cooldown line format. It covers
  decimal timestamps, the split at the first `|`, `ParseLine` / `FormatLine` and
  the expiry test.
- `recycler.dfy` (module `Recycler`): the sweep as a specification (`Retained`,
  `Moved`, `Partition`), the scanning loop `ScanCooldown` proved against it, and
  the partition, order, survival and conservation lemmas.
- `account_pool.dfy` (module `AccountPools`): class `AccountPool`. Its fields are
  the three pools plus whether `hits.txt` exists. Its methods are `Allocate` and
  `Sweep`. `Inventory()` is a multiset of accounts. It counts the non-blank
  available lines when `hits.txt` exists, the account of every cooldown line
  whose timestamp parses, and every released line. Both methods preserve it. So
  none of these accounts is lost or duplicated, and pools that start without
  duplicates keep that property. A cooldown line whose timestamp does not parse
  contributes no account, but it also stops every sweep, so it never moves.
- `scenarios.dfy` (module `Scenarios`): concrete runs (allocate then release,
  out of stock, a malformed line beside expired entries, a bad timestamp). They
  are checked against the class contracts alone.

## Model

| member | source | states |
|---|---|---|
| PoolFormat.ExpiryThreshold | server.py:44 | with `COOLDOWN_SECONDS = 86400` (server.py:17), an entry stamped `ts` is not due at `ts + 86399`, and `Expired(ts, now)` holds exactly for `now >= ts + 86400`, so once due it stays due |
| PoolFormat.NatDigits | server.py:106-108 | the decimal spelling written for a timestamp is a non-empty digit string whose value is the number itself |
| PoolFormat.FormatTimestamp | server.py:106-108 | the written stamp of a negative time is `-` then decimal digits whose value is `-ts`; otherwise it is non-empty decimal digits whose value is `ts` |
| PoolFormat.ParseTimestamp | server.py:41 | an empty prefix, or one holding a `\|`, is never a timestamp; whatever parses is decimal digits, optionally after one `+` or `-` |
| PoolFormat.ParseFormatTimestamp | server.py:41 | parsing a written timestamp gives back the same number |
| PoolFormat.FormatTimestampHasNoBar | server.py:108 | a written timestamp is non-empty and holds no `\|`, so it cannot move the split point |
| PoolFormat.FirstBar | server.py:39-40 | None exactly when the line has no `\|`; otherwise the index of a `\|` with none before it, which is where `split("\|", 1)` cuts |
| PoolFormat.FirstBarAfter | server.py:40 | a `\|`-free prefix followed by a `\|` splits exactly at the end of that prefix |
| PoolFormat.ParseLine | server.py:38-42 | a line is untimed (kept verbatim, never parsed) exactly when it has no `\|` |
| PoolFormat.ParseLineAccount | server.py:40-41 | a parsed entry's line has a `\|`; its timestamp is the parse of the prefix before the FIRST `\|`, and its account is the whole rest of the line after that `\|` |
| PoolFormat.ParseLineBadStamp | server.py:39-41 | a line is a bad timestamp (the sweep raises) exactly when it has a `\|` and the prefix before its first `\|` does not parse as a number |
| PoolFormat.FormatLine | server.py:108 | the line allocation writes has its first `\|` right after the written timestamp, the prefix before it is that timestamp, and the account follows it whole |
| PoolFormat.ParseFormatLine | server.py:40-41 | round trip: the line allocation writes parses back to the same timestamp and account, even when the account contains `\|` |
| Recycler.Due | server.py:39-44 | a line that is due for release has a `\|` and a timestamp that parses |
| Recycler.Retained | server.py:44-51 | a sweep never keeps more lines than the cooldown pool had |
| Recycler.Moved | server.py:44-45 | a sweep moves at most one account per cooldown line |
| Recycler.Partition | server.py:37-51 | the sweep is dropped (`HasBadStamp`) exactly when some line has a bad timestamp; otherwise it keeps only lines of the pool that are not due |
| Recycler.ScanCooldown | server.py:30-51 | the scanning loop returns exactly `Partition(lines, now)`: it aborts iff some line has a bad timestamp, else it returns the kept lines and the moved accounts |
| Recycler.PartitionConserves | server.py:43-51 | every cooldown line is either kept or has its account moved, never both and never dropped: kept + moved = lines before |
| Recycler.RetainedMembers | server.py:43-51 | a line stays in cooldown iff it was there and is not due; no entry with `now - ts < 86400` is moved, and no due entry stays |
| Recycler.MovedMembers | server.py:40-45 | an account is moved iff some due line carries it, with the timestamp dropped |
| Recycler.RetainedAppend | server.py:37-51 | kept lines of a concatenation are the kept lines of each part, in order, so relative order is preserved |
| Recycler.MovedAppend | server.py:37-45 | moved accounts of a concatenation are those of each part, in order, so released grows in original cooldown order |
| Recycler.UntimedSurvive | server.py:48-51 | the lines without a `\|`, blank ones included, are all still in cooldown, unchanged and in their original relative order |
| Recycler.NothingDue | server.py:58-65 | nothing is moved iff no line is due, and then the cooldown lines stay as they were |
| Recycler.SweepIdempotent | server.py:37-56 | a second sweep at the same time moves nothing and keeps the same lines |
| Recycler.SweepConservesAccounts | server.py:37-62 | the accounts still in cooldown plus the moved accounts are, as a multiset, exactly the accounts that were in cooldown |
| Recycler.CooldownAccountsAppend | server.py:40 | the accounts recorded in a concatenation of cooldown lines are those of each part, in order |
| Recycler.SweepOneLine | server.py:43-51 | one line is kept iff not due, and moves its account iff due |
| Recycler.AllocatedAccount | server.py:108 | appending the line allocation writes adds exactly its account, at the end, to the accounts recorded in cooldown |
| Recycler.SweepAfterAllocation | server.py:44-45 | the entry allocation appends at `ts` is moved by a sweep at `now` exactly when `now - ts >= 86400`, and then exactly its account is appended after the earlier lines' accounts |
| AccountPools.NonBlank | server.py:91 | the lines allocation reads hold no blank line and are no more than the file's lines |
| AccountPools.NonBlankMembers | server.py:91 | an account is among the lines read iff it is a non-blank line of the file |
| AccountPools.NonBlankAll | server.py:91 | for every account at once: it is among the lines read iff it is a non-blank line of the file |
| AccountPools.NonBlankUnchanged | server.py:101-103 | a pool with no blank line reads back as itself |
| AccountPools.FirstIndex | server.py:100 | the index `list.remove` acts on is an occurrence of the value with none before it |
| AccountPools.RemoveFirst | server.py:100 | `list.remove` shortens the list by exactly one |
| AccountPools.RemoveFirstCount | server.py:100 | `list.remove` takes away exactly one copy of the value |
| AccountPools.RemoveFirstNonBlank | server.py:100-103 | the available pool allocation writes back has no blank line, so the next allocation reads it back unchanged |
| AccountPools.AllocationConserves | server.py:97-108 | the rewritten available pool plus the cooldown accounts with the new line hold the same accounts as before the allocation |
| AccountPools.SweepMovesAccounts | server.py:54-62 | a sweep that is not dropped keeps the number of cooldown plus released lines, and the multiset of cooldown accounts plus released accounts |
| AccountPools.AccountPool.Stock | server.py:87-93 | an account can be handed out iff `hits.txt` exists and the account is a non-blank line of it |
| AccountPools.AccountPool.Inventory | server.py:87-108 | an account is in the inventory iff it can be handed out, is recorded in a cooldown entry, or is released |
| AccountPools.AccountPool.Allocate | server.py:84-111 | a missing file gives DatabaseError and an empty one OutOfStock, both with no pool changed; otherwise the picked line is returned, its first occurrence leaves available, `ts\|account` is appended to cooldown, released is unchanged, sizes move (a-1, c+1, r), and the inventory of accounts is unchanged |
| AccountPools.AccountPool.Sweep | server.py:26-68 | with a bad timestamp nothing changes; otherwise cooldown becomes the kept lines and released gains the moved accounts at its end; total size and the inventory of accounts are unchanged |
| Scenarios.SweepAroundUntimed | server.py:48-51 | a line without `\|` between two expired entries stays, and both accounts are released in order |
| Scenarios.ReleasedAfterCooldown | server.py:44-45 | the line written at `t0` is moved, account only, by a sweep exactly one cooldown period later |
| Scenarios.NonNumericStamp | server.py:39-41 | a line whose prefix before `\|` is not a number is a bad timestamp |

## Left out

- The Flask app, its routes, `render_template`, CORS, `jsonify` and the HTTP status codes are web plumbing. An allocation's answer is the `Outcome` datatype.
- The background thread, its `while True` loop, `time.sleep(CHECK_INTERVAL)` and the log lines are not modelled. So is the unsynchronised sharing of the files between the request handler and the sweeper. The model is one sweep step, called sequentially.
- Crashes between the two writes of an allocation or of a sweep are not modelled. Each operation is one atomic step here.
- Clocks (`time.time`, `datetime.now`) become the parameter `now`, in integer seconds. `random.choice` becomes the index `pick`. When a choice is made, `pick` must be in range.
- PoolFormat.FormatTimestamp: writes whole seconds. The program writes Python's float spelling of `time.time()`, which has a fractional part.
- PoolFormat.ParseTimestamp: accepts only an optional sign followed by ASCII decimal digits. Python's `float()` also accepts fractions, exponents, `inf`, `nan`, digit underscores, surrounding whitespace and non-ASCII Unicode decimal digits (Arabic-Indic digits, for example). Such prefixes count as bad timestamps here and abort the sweep.
- File-system details are not modelled: existence checks, lazy creation of `temp_used.txt`, newline handling and whitespace stripping. Pools are sequences of already-stripped lines, so a blank line is `""`. A missing cooldown or released file behaves as an empty one.
- The generic `except Exception` paths are not modelled, apart from the timestamp-parse abort. These are I/O errors in a sweep and the 500 answer that carries the exception text in `get_account`.
- Uniqueness of accounts across the pools is not enforced by the program. The model proves that both operations preserve the multiset of accounts, which keeps an initially duplicate-free state duplicate-free.
- AccountPools.AccountPool.Inventory: the class also admits a missing `hits.txt` together with non-empty `available` lines, a state the program cannot reach. Those lines are not counted, because an allocation cannot read them.
