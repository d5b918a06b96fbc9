/** The line format of the cooldown pool (temp_used.txt): each entry is one
    line "<timestamp>|<account>". Allocation writes such lines, the recycler
    splits them at their FIRST '|' and parses the prefix as a timestamp.
    Timestamps are whole seconds here; see README for the float forms that
    are not modelled. */
module PoolFormat {

  datatype Option<T> = None | Some(value: T)

  /** COOLDOWN_SECONDS: 24 hours. */
  const CooldownSeconds: int := 86400

  /** The expiry test of the recycler: a cooldown entry stamped `ts` is due
      for release at time `now` once a full cooldown period has passed. */
  predicate Expired(ts: int, now: int)
  {
    now - ts >= CooldownSeconds
  }

  /** An entry stamped `ts` is not yet due one second before a full
      cooldown period has passed, is due from then on, and stays due. */
  lemma ExpiryThreshold(ts: int)
    ensures !Expired(ts, ts + CooldownSeconds - 1)
    ensures forall now :: Expired(ts, now) <==> now >= ts + CooldownSeconds
  {
  }

  // ---------------------------------------------------------------------
  // Decimal digits

  predicate IsDigit(c: char)
  {
    '0' <= c <= '9'
  }

  predicate AllDigits(s: string)
  {
    forall i :: 0 <= i < |s| ==> IsDigit(s[i])
  }

  function DigitValue(c: char): (d: nat)
    requires IsDigit(c)
    ensures d < 10
  {
    (c - '0') as nat
  }

  function DigitChar(d: nat): (c: char)
    requires d < 10
    ensures IsDigit(c) && DigitValue(c) == d
  {
    ('0' as int + d) as char
  }

  /** The value of a string of decimal digits, most significant first. */
  function DigitsValue(s: string): nat
    requires AllDigits(s)
  {
    if s == [] then 0 else DigitsValue(s[..|s| - 1]) * 10 + DigitValue(s[|s| - 1])
  }

  /** The decimal spelling of `n`, without leading zeros. */
  function NatDigits(n: nat): (s: string)
    ensures s != [] && AllDigits(s)
    ensures DigitsValue(s) == n
  {
    if n < 10 then [DigitChar(n)]
    else
      var p := NatDigits(n / 10);
      var s := p + [DigitChar(n % 10)];
      assert s[..|s| - 1] == p;
      s
  }

  // ---------------------------------------------------------------------
  // Timestamps

  /** How allocation writes the current time into a cooldown line: a '-'
      for a negative time, then the decimal digits of its magnitude. */
  function FormatTimestamp(ts: int): (s: string)
    ensures ts < 0 ==> |s| > 1 && s[0] == '-' && AllDigits(s[1..]) && DigitsValue(s[1..]) == -ts
    ensures ts >= 0 ==> s != [] && AllDigits(s) && DigitsValue(s) == ts
  {
    if ts < 0 then
      var d := NatDigits(-ts);
      assert ("-" + d)[1..] == d;
      "-" + d
    else NatDigits(ts)
  }

  /** The timestamp parse of the recycler: an optional sign followed by one
      or more decimal digits; anything else is not a number. */
  function ParseTimestamp(s: string): (r: Option<int>)
    ensures s == [] ==> r == None
    ensures '|' in s ==> r == None
    ensures r.Some? ==> AllDigits(s) || (|s| > 1 && (s[0] == '-' || s[0] == '+') && AllDigits(s[1..]))
  {
    if |s| > 0 && (s[0] == '-' || s[0] == '+') then
      if |s| > 1 && AllDigits(s[1..]) then
        Some(if s[0] == '-' then -(DigitsValue(s[1..]) as int) else DigitsValue(s[1..]))
      else None
    else if |s| > 0 && AllDigits(s) then Some(DigitsValue(s))
    else None
  }

  lemma FormatTimestampHasNoBar(ts: int)
    ensures FormatTimestamp(ts) != []
    ensures '|' !in FormatTimestamp(ts)
  {
    var d := NatDigits(if ts < 0 then -ts else ts);
    assert forall i :: 0 <= i < |d| ==> d[i] != '|';
  }

  /** Parsing a written timestamp gives it back. */
  lemma ParseFormatTimestamp(ts: int)
    ensures ParseTimestamp(FormatTimestamp(ts)) == Some(ts)
  {
    var d := NatDigits(if ts < 0 then -ts else ts);
    if ts < 0 {
      assert ("-" + d)[1..] == d;
    } else {
      assert IsDigit(d[0]);
    }
  }

  // ---------------------------------------------------------------------
  // Splitting a line at its first '|'

  /** The position of the first '|' of `s`, if any: `"|" in line` and the
      split point of `line.split("|", 1)`. */
  function FirstBar(s: string): (r: Option<nat>)
    ensures r.None? <==> '|' !in s
    ensures r.Some? ==> r.value < |s| && s[r.value] == '|' && '|' !in s[..r.value]
  {
    if s == [] then None
    else if s[0] == '|' then Some(0)
    else
      match FirstBar(s[1..])
      case None => None
      case Some(k) =>
        assert s[..k + 1] == [s[0]] + s[1..][..k];
        Some(k + 1)
  }

  /** If the prefix `p` holds no '|' and `t` starts with one, the line
      `p + t` splits exactly between them. */
  lemma {:induction false} FirstBarAfter(p: string, t: string)
    requires '|' !in p && t != [] && t[0] == '|'
    ensures FirstBar(p + t) == Some(|p|)
  {
    var s := p + t;
    assert s[|p|] == '|';
    assert forall i :: 0 <= i < |p| ==> s[i] == p[i];
  }

  // ---------------------------------------------------------------------
  // Cooldown lines

  /** What the recycler makes of one (stripped) cooldown line:
      - Untimed: no '|' at all (blank and malformed lines), kept verbatim;
      - Stamped: split at the first '|', prefix a valid timestamp;
      - BadStamp: has a '|' but the prefix is not a number, which raises. */
  datatype CooldownLine =
    | Untimed
    | Stamped(ts: int, account: string)
    | BadStamp

  function ParseLine(line: string): (r: CooldownLine)
    ensures r.Untimed? <==> '|' !in line
  {
    match FirstBar(line)
    case None => Untimed
    case Some(k) =>
      match ParseTimestamp(line[..k])
      case None => BadStamp
      case Some(ts) => Stamped(ts, line[k + 1..])
  }

  /** An entry's timestamp is the prefix before the FIRST '|' of its line,
      and its account is everything after that '|'. */
  lemma ParseLineAccount(line: string)
    requires ParseLine(line).Stamped?
    ensures FirstBar(line).Some?
    ensures ParseTimestamp(line[..FirstBar(line).value]) == Some(ParseLine(line).ts)
    ensures line[FirstBar(line).value + 1..] == ParseLine(line).account
  {
  }

  /** The abort condition of the recycler: a line has a '|' and the prefix
      before its first '|' is not a timestamp. */
  lemma ParseLineBadStamp(line: string)
    ensures ParseLine(line).BadStamp? <==>
            FirstBar(line).Some? && ParseTimestamp(line[..FirstBar(line).value]).None?
  {
  }

  /** The line allocation appends to the cooldown pool: its first '|'
      comes right after the written timestamp, and the account follows it
      whole. */
  function FormatLine(ts: int, account: string): (line: string)
    ensures FirstBar(line) == Some(|FormatTimestamp(ts)|)
    ensures line[..|FormatTimestamp(ts)|] == FormatTimestamp(ts)
    ensures line[|FormatTimestamp(ts)| + 1..] == account
  {
    var p := FormatTimestamp(ts);
    FormatTimestampHasNoBar(ts);
    FirstBarAfter(p, "|" + account);
    assert p + "|" + account == p + ("|" + account);
    p + "|" + account
  }

  /** Round trip: the recycler reads back exactly the timestamp and account
      that allocation wrote, even when the account itself contains '|'. */
  lemma ParseFormatLine(ts: int, account: string)
    ensures ParseLine(FormatLine(ts, account)) == Stamped(ts, account)
  {
    ParseFormatTimestamp(ts);
  }
}
