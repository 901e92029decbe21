/**
 server/src/api/audit_log.rs: `GET /v1/audit`. A page carries a cursor, the time
 and ID of its last event as text, which the next request hands back.
 */
module AuditPages {
  import opened Bytes
  import opened Audit

  // ---- Cursors as text ----------------------------------------------------

  /** A number in decimal, as `format!` prints it. */
  function Digits(n: nat): (s: string)
    ensures s != "" && forall i :: 0 <= i < |s| ==> '0' <= s[i] <= '9'
  {
    var digit := '0' + (n % 10) as char;
    if n < 10 then [digit] else Digits(n / 10) + [digit]
  }

  function Decimal(n: int): string { if n < 0 then "-" + Digits(-n) else Digits(n) }

  /** The value of a run of digits, which may be empty. */
  function Value(s: string): Result<nat> {
    if s == "" then Ok(0)
    else
      var n, c := |s| - 1, s[|s| - 1];
      if Value(s[..n]).Err? || !('0' <= c <= '9') then Err
      else Ok(10 * Value(s[..n]).value + (c as int - '0' as int))
  }

  /** `i64::from_str`: an optional sign, at least one digit, and a value that fits. */
  function ParseI64(s: string): Result<I64> {
    var signed := s != "" && (s[0] == '-' || s[0] == '+');
    var digits := if signed then s[1..] else s;
    if digits == "" || Value(digits).Err? then Err
    else
      var n: int := Value(digits).value as int * (if signed && s[0] == '-' then -1 else 1);
      if -0x8000_0000_0000_0000 <= n < 0x8000_0000_0000_0000 then Ok(n) else Err
  }

  function FormatCursor(c: Cursor): string { Decimal(c.createdAt) + ":" + c.id }

  /** The place of the first colon, or the length. */
  function Colon(s: string): (at: nat)
    ensures at <= |s| && forall i :: 0 <= i < at ==> s[i] != ':'
    ensures at < |s| ==> s[at] == ':'
  {
    if s == "" || s[0] == ':' then 0 else 1 + Colon(s[1..])
  }

  /** `split_once(':')`, then the time as a number; the ID may be anything. */
  function ParseCursor(s: string): Result<Cursor> {
    var at := Colon(s);
    if at == |s| || ParseI64(s[..at]).Err? then Err
    else Ok(Cursor(ParseI64(s[..at]).value, s[at + 1..]))
  }

  lemma {:induction false} ValueOfDigits(n: nat)
    ensures Value(Digits(n)) == Ok(n)
  {
    var s := Digits(n);
    var k := |s| - 1;
    if n < 10 {
      assert s[..k] == "";
    } else {
      ValueOfDigits(n / 10);
      assert s[..k] == Digits(n / 10);
    }
  }

  lemma ParseDecimal(n: I64)
    ensures ParseI64(Decimal(n)) == Ok(n)
  {
    hide Value, Digits;
    if n < 0 {
      var size: nat := -(n as int);
      ValueOfDigits(size);
      assert Decimal(n)[1..] == Digits(size);
    } else {
      ValueOfDigits(n);
    }
  }

  /** Every cursor is read back, whatever its ID holds: a colon in it too. */
  lemma CursorRead(c: Cursor)
    ensures ParseCursor(FormatCursor(c)) == Ok(c)
  {
    hide ParseI64;
    var time, text := Decimal(c.createdAt), FormatCursor(c);
    ParseDecimal(c.createdAt);
    assert text[|time|] == ':';
    assert forall i :: 0 <= i < |time| ==> text[i] == time[i] && time[i] != ':';
    assert text[..|time|] == time && text[|time| + 1..] == c.id;
    assert Colon(text) == |time|;
  }

  // ---- The handler --------------------------------------------------------

  const DEFAULT_LIMIT: nat := 50
  const MAX_LIMIT: nat := 200

  datatype Query = Query(limit: Option<nat>, before: Option<string>, actor: Option<string>, targetType: Option<string>,
                         targetId: Option<string>, action: Option<string>, token: Option<string>)

  datatype Page = Page(events: seq<Event>, next: Option<string>)

  /** The limit asked for, brought into 1..=200. */
  function PageLimit(q: Query): (n: nat)
    ensures 1 <= n <= MAX_LIMIT
    ensures q.limit.None? ==> n == DEFAULT_LIMIT
    ensures q.limit.Some? && 1 <= q.limit.value <= MAX_LIMIT ==> n == q.limit.value
  {
    var asked := if q.limit.Some? then q.limit.value else DEFAULT_LIMIT;
    if asked < 1 then 1 else if asked > MAX_LIMIT then MAX_LIMIT else asked
  }

  predicate Refused(q: Query) {
    || (q.before.Some? && ParseCursor(q.before.value).Err?)
    || q.targetType.Some? != q.targetId.Some?
  }

  function FilterOf(q: Query): Filter
    requires !Refused(q)
  {
    Filter(q.actor, q.token,
           if q.targetType.Some? then Some((q.targetType.value, q.targetId.value)) else None,
           q.action,
           if q.before.Some? then Some(ParseCursor(q.before.value).value) else None)
  }

  /** Text without a colon is no cursor. */
  lemma CursorNeedsColon(s: string)
    requires ':' !in s
    ensures ParseCursor(s).Err?
  {
  }

  /**
   A query is refused for nothing but a cursor that no page gave and that cannot
   be read, or half a target; what it then asks for is each of its fields.
   */
  lemma QueryMeans(b: Backend, q: Query, e: Event)
    ensures (q.before.Some? ==> exists c :: FormatCursor(c) == q.before.value) && (q.targetType.Some? <==> q.targetId.Some?)
            ==> !Refused(q)
    ensures !Refused(q) ==>
              (Matches(b, FilterOf(q), e) <==>
               && (q.actor.Some? ==> e.actor == Some(q.actor.value))
               && (q.token.Some? ==> e.token == Some(q.token.value))
               && (q.targetType.Some? ==> e.targetType == q.targetType.value && e.targetId == q.targetId.value)
               && (q.action.Some? ==> if EndsInDot(q.action.value) then StartsWith(b, e.action, q.action.value)
                                      else e.action == q.action.value)
               && (q.before.Some? ==> Newer(ParseCursor(q.before.value).value, Key(e))))
  {
    hide ParseCursor, FormatCursor, StartsWith, EndsInDot, Newer;
    if q.before.Some? {
      forall c | FormatCursor(c) == q.before.value ensures ParseCursor(q.before.value).Ok? {
        CursorRead(c);
      }
    }
  }

  /**
   `list`: the page asked for, with a cursor exactly when the page is full. The
   request that hands the cursor back asks for what follows the page's last row.
   */
  method AuditPage(b: Backend, table: Table, q: Query) returns (r: Result<Page>)
    requires Keyed(table)
    ensures r.Err? <==> Refused(q)
    ensures r.Ok? ==>
              && IsPage(b, r.value.events, table, FilterOf(q), PageLimit(q))
              && (r.value.next.Some? <==> |r.value.events| == PageLimit(q))
              && (r.value.next.Some? ==>
                    && !Refused(q.(before := r.value.next))
                    && FilterOf(q.(before := r.value.next)) == Next(FilterOf(q), r.value.events))
  {
    hide IsPage, Keyed, ParseCursor, FormatCursor;
    if Refused(q) {
      return Err;
    }
    var events := List(b, table, FilterOf(q), PageLimit(q));
    if |events| != PageLimit(q) {
      return Ok(Page(events, None));
    }
    var last := Key(events[|events| - 1]);
    CursorRead(last);
    return Ok(Page(events, Some(FormatCursor(last))));
  }
}
