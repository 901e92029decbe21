/**
 server/src/audit.rs, `list`, and the cursor handling of
 server/src/api/audit_log.rs: the audit log newest first, a page at a time.
 SQL is filtering, sorting and limiting over a finite table. Events keep the
 columns a filter or the order looks at.
 */
module Audit {
  import opened Bytes
  import opened Strings

  type I64 = x: int | -0x8000_0000_0000_0000 <= x < 0x8000_0000_0000_0000

  datatype Event = Event(id: string, createdAt: I64, actor: Option<string>, token: Option<string>,
                         targetType: string, targetId: string, action: string)

  datatype Cursor = Cursor(createdAt: I64, id: string)

  datatype Filter = Filter(actor: Option<string>, token: Option<string>, target: Option<(string, string)>,
                           action: Option<string>, before: Option<Cursor>)

  type Table = seq<Event>

  /** `id` is the table's primary key. */
  ghost predicate Keyed(table: Table) {
    forall i, j :: 0 <= i < j < |table| ==> table[i].id != table[j].id
  }

  // ---- Newest first -------------------------------------------------------

  predicate Newer(a: Cursor, b: Cursor) {
    a.createdAt > b.createdAt || (a.createdAt == b.createdAt && Below(b.id, a.id))
  }

  function Key(e: Event): Cursor { Cursor(e.createdAt, e.id) }

  lemma NewerTotal(a: Cursor, b: Cursor)
    ensures a == b || Newer(a, b) || Newer(b, a)
  {
    BelowTotal(a.id, b.id);
  }

  lemma NewerStrict(a: Cursor, b: Cursor)
    ensures Newer(a, b) ==> a != b && !Newer(b, a)
  {
    BelowStrict(a.id, b.id);
    BelowStrict(b.id, a.id);
  }

  lemma NewerTransitive(a: Cursor, b: Cursor, c: Cursor)
    requires Newer(a, b) && Newer(b, c)
    ensures Newer(a, c)
  {
    if a.createdAt == b.createdAt == c.createdAt {
      BelowTransitive(c.id, b.id, a.id);
    }
  }

  ghost predicate NewestFirst(s: seq<Event>) {
    forall i, j :: 0 <= i < j < |s| ==> Newer(Key(s[i]), Key(s[j]))
  }

  // ---- The query ----------------------------------------------------------

  datatype Backend = Sqlite | Postgres

  datatype Condition =
    | ActorIs(actor: string)
    | TokenIs(token: string)
    | TargetTypeIs(kind: string)
    | TargetIdIs(target: string)
    | ActionIs(action: string)
    | ActionLike(pattern: string)
    | OlderThan(cursor: Cursor)

  /** One SQL condition on one row; a comparison with NULL does not hold. */
  predicate Holds(b: Backend, c: Condition, e: Event) {
    match c
    case ActorIs(actor) => e.actor == Some(actor)
    case TokenIs(token) => e.token == Some(token)
    case TargetTypeIs(kind) => e.targetType == kind
    case TargetIdIs(target) => e.targetId == target
    case ActionIs(action) => e.action == action
    case ActionLike(pattern) => Like(b, pattern, e.action)
    case OlderThan(c) => e.createdAt < c.createdAt || (e.createdAt == c.createdAt && Below(e.id, c.id))
  }

  predicate AllHold(b: Backend, conditions: seq<Condition>, e: Event) {
    forall i :: 0 <= i < |conditions| ==> Holds(b, conditions[i], e)
  }

  function Lower(c: char): char { if 'A' <= c <= 'Z' then c - 'A' + 'a' else c }

  /** LIKE on SQLite ignores the case of ASCII letters; on Postgres it does not. */
  predicate SameChar(b: Backend, p: char, t: char) { p == t || (b.Sqlite? && Lower(p) == Lower(t)) }

  /** `text LIKE pattern ESCAPE '\'`. */
  predicate Like(b: Backend, pattern: string, text: string)
    decreases |pattern| + |text|
  {
    if pattern == "" then text == ""
    else if pattern[0] == '%' then
      Like(b, pattern[1..], text) || (text != "" && Like(b, pattern, text[1..]))
    else if text == "" then false
    else if pattern[0] == '_' then Like(b, pattern[1..], text[1..])
    else if pattern[0] == '\\' then
      |pattern| >= 2 && SameChar(b, pattern[1], text[0]) && Like(b, pattern[2..], text[1..])
    else SameChar(b, pattern[0], text[0]) && Like(b, pattern[1..], text[1..])
  }

  function Replace(s: string, from: char, to: string): string {
    if s == "" then "" else (if s[0] == from then to else [s[0]]) + Replace(s[1..], from, to)
  }

  /** The three replacements, one after the other. */
  function Escaped(s: string): string {
    Replace(Replace(Replace(s, '\\', "\\\\"), '%', "\\%"), '_', "\\_")
  }

  function Sorted(s: seq<Event>): seq<Event> {
    if s == [] then [] else Placed(Sorted(s[1..]), s[0])
  }

  function Placed(s: seq<Event>, e: Event): seq<Event> {
    if s == [] || Newer(Key(e), Key(s[0])) then [e] + s else [s[0]] + Placed(s[1..], e)
  }

  function Where(b: Backend, table: Table, conditions: seq<Condition>): seq<Event> {
    if table == [] then []
    else (if AllHold(b, conditions, table[0]) then [table[0]] else []) + Where(b, table[1..], conditions)
  }

  /** `WHERE` the conditions, `ORDER BY created_at DESC, id DESC`. */
  function Selected(b: Backend, table: Table, conditions: seq<Condition>): seq<Event> {
    Sorted(Where(b, table, conditions))
  }

  function Limited(s: seq<Event>, limit: nat): seq<Event> { if |s| <= limit then s else s[..limit] }

  // ---- What a page is -----------------------------------------------------

  /** `text` starts with `prefix`, as the database compares characters. */
  predicate StartsWith(b: Backend, text: string, prefix: string) {
    |prefix| <= |text| && forall i :: 0 <= i < |prefix| ==> SameChar(b, prefix[i], text[i])
  }

  predicate EndsInDot(s: string) { s != "" && s[|s| - 1] == '.' }

  /** The events a filter asks for. */
  predicate Matches(b: Backend, filter: Filter, e: Event) {
    && (filter.actor.Some? ==> e.actor == filter.actor)
    && (filter.token.Some? ==> e.token == filter.token)
    && (filter.target.Some? ==> (e.targetType, e.targetId) == filter.target.value)
    && (filter.action.Some? ==>
          if EndsInDot(filter.action.value) then StartsWith(b, e.action, filter.action.value)
          else e.action == filter.action.value)
    && (filter.before.Some? ==> Newer(filter.before.value, Key(e)))
  }

  /** All matching events, newest first. */
  ghost predicate IsListing(b: Backend, r: seq<Event>, table: Table, filter: Filter) {
    && NewestFirst(r)
    && forall e :: e in r <==> e in table && Matches(b, filter, e)
  }

  /** The newest `limit` matching events, newest first. */
  ghost predicate IsPage(b: Backend, r: seq<Event>, table: Table, filter: Filter, limit: nat) {
    && NewestFirst(r) && |r| <= limit
    && (forall e :: e in r ==> e in table && Matches(b, filter, e))
    && (forall e :: e in table && Matches(b, filter, e) && e !in r ==> |r| == limit && OlderThanAll(e, r))
  }

  ghost predicate OlderThanAll(e: Event, s: seq<Event>) { forall x :: x in s ==> Newer(Key(x), Key(e)) }

  // ---- LIKE with an escaped prefix ----------------------------------------

  function EscapedChar(c: char): string {
    if c == '\\' || c == '%' || c == '_' then ['\\', c] else [c]
  }

  lemma {:induction false} ReplaceConcat(s: string, t: string, from: char, to: string)
    ensures Replace(s + t, from, to) == Replace(s, from, to) + Replace(t, from, to)
  {
    if s == "" {
      assert s + t == t;
    } else {
      assert (s + t)[1..] == s[1..] + t;
      ReplaceConcat(s[1..], t, from, to);
    }
  }

  lemma ReplaceShort(c: char, d: char, from: char, to: string)
    ensures Replace([c], from, to) == if c == from then to else [c]
    ensures c != from && d != from ==> Replace([c, d], from, to) == [c, d]
    ensures c != from && d == from ==> Replace([c, d], from, to) == [c] + to
  {
    assert [c][1..] == "" && [c, d][1..] == [d] && [d][1..] == "";
    assert Replace("", from, to) == "";
  }

  /** The three replacements escape each character once: a later one never touches an earlier one's escapes. */
  lemma EscapedStep(c: char, s: string)
    ensures Escaped([c] + s) == EscapedChar(c) + Escaped(s)
  {
    hide Replace;
    ReplaceConcat([c], s, '\\', "\\\\");
    ReplaceShort(c, c, '\\', "\\\\");
    var c1, s1 := Replace([c], '\\', "\\\\"), Replace(s, '\\', "\\\\");
    ReplaceConcat(c1, s1, '%', "\\%");
    ReplaceShort(c, c, '%', "\\%");
    var c2, s2 := Replace(c1, '%', "\\%"), Replace(s1, '%', "\\%");
    ReplaceConcat(c2, s2, '_', "\\_");
    ReplaceShort(c, c, '_', "\\_");
    ReplaceShort('\\', c, '_', "\\_");
    assert Replace(c2, '_', "\\_") == EscapedChar(c);
  }

  lemma {:induction false} PercentMatchesAll(b: Backend, text: string)
    ensures Like(b, "%", text)
    decreases |text|
  {
    assert "%"[1..] == "";
    if text != "" {
      PercentMatchesAll(b, text[1..]);
    }
  }

  lemma LikeStep(b: Backend, c: char, pattern: string, text: string)
    ensures Like(b, EscapedChar(c) + pattern, text)
       <==> text != "" && SameChar(b, c, text[0]) && Like(b, pattern, text[1..])
  {
    var p := EscapedChar(c) + pattern;
    if |EscapedChar(c)| == 2 {
      assert p[0] == '\\' && p[1] == c && p[2..] == pattern;
    } else {
      assert p[0] == c && p[1..] == pattern;
    }
  }

  /** For every prefix, wildcards and escapes in it included: the pattern matches exactly the texts starting with it. */
  lemma {:induction false} LikeIsPrefix(b: Backend, prefix: string, text: string)
    ensures Like(b, Escaped(prefix) + "%", text) <==> StartsWith(b, text, prefix)
  {
    hide Like, Escaped;
    if prefix == "" {
      EmptyEscaped();
      assert "" + "%" == "%";
      PercentMatchesAll(b, text);
    } else {
      var c, rest := prefix[0], prefix[1..];
      assert prefix == [c] + rest;
      EscapedStep(c, rest);
      assert Escaped(prefix) + "%" == EscapedChar(c) + (Escaped(rest) + "%");
      LikeStep(b, c, Escaped(rest) + "%", text);
      if text != "" {
        LikeIsPrefix(b, rest, text[1..]);
        StartsWithStep(b, c, rest, text);
      }
    }
  }

  lemma EmptyEscaped()
    ensures Escaped("") == ""
  {
  }

  lemma StartsWithStep(b: Backend, c: char, rest: string, text: string)
    requires text != ""
    ensures StartsWith(b, text, [c] + rest) <==> SameChar(b, c, text[0]) && StartsWith(b, text[1..], rest)
  {
    var p := [c] + rest;
    assert forall i :: 0 <= i < |rest| && i < |text| - 1 ==> p[i + 1] == rest[i] && text[i + 1] == text[1..][i];
    if StartsWith(b, text, p) {
      assert p[0] == c;
      forall i | 0 <= i < |rest| ensures SameChar(b, rest[i], text[1..][i]) {
        assert SameChar(b, p[i + 1], text[i + 1]);
      }
    }
    if SameChar(b, c, text[0]) && StartsWith(b, text[1..], rest) {
      forall i | 0 <= i < |p| ensures SameChar(b, p[i], text[i]) {
        if i > 0 {
          assert SameChar(b, rest[i - 1], text[1..][i - 1]);
        }
      }
    }
  }

  predicate Letter(c: char) { 'A' <= c <= 'Z' || 'a' <= c <= 'z' }

  function OtherCase(c: char): char
    requires Letter(c)
  {
    if 'A' <= c <= 'Z' then c - 'A' + 'a' else c - 'a' + 'A'
  }

  /** An ASCII letter is the same as just one other character, itself in the other case. */
  lemma SameOnlyInCase(p: char, t: char)
    ensures SameChar(Postgres, p, t) <==> p == t
    ensures SameChar(Sqlite, p, t) <==> p == t || (Letter(p) && t == OtherCase(p))
  {
  }

  predicate HasLetter(s: string) { exists i :: 0 <= i < |s| && Letter(s[i]) }

  /** The pattern for a prefix finds exactly the texts that start with it, character for character. */
  ghost predicate FindsPrefix(b: Backend, prefix: string) {
    forall text :: Like(b, Escaped(prefix) + "%", text) <==> prefix <= text
  }

  /** A prefix filter finds exactly the texts that start with the prefix on Postgres, and on SQLite if and only if the prefix has no letter. */
  lemma PrefixFoundExactly(b: Backend, prefix: string)
    ensures FindsPrefix(b, prefix) <==> b.Postgres? || !HasLetter(prefix)
  {
    hide Like, Escaped, SameChar;
    if b.Postgres? || !HasLetter(prefix) {
      forall text ensures Like(b, Escaped(prefix) + "%", text) <==> prefix <= text {
        LikeIsPrefix(b, prefix, text);
        forall i | 0 <= i < |prefix| && i < |text| ensures SameChar(b, prefix[i], text[i]) <==> prefix[i] == text[i] {
          SameOnlyInCase(prefix[i], text[i]);
        }
      }
    } else {
      var i :| 0 <= i < |prefix| && Letter(prefix[i]);
      var text := prefix[i := OtherCase(prefix[i])];
      LikeIsPrefix(b, prefix, text);
      forall k | 0 <= k < |prefix| ensures SameChar(b, prefix[k], text[k]) {
        SameOnlyInCase(prefix[k], text[k]);
      }
      assert prefix[i] != text[i];
    }
  }

  /** One event, and a filter for a prefix of its action in the other case: SQLite's page has it, Postgres's does not. */
  lemma SqliteIgnoresCase()
    ensures var e := Event("1", 0, None, None, "user", "1", "USER.add");
            var filter := Filter(None, None, None, Some("user."), None);
            IsPage(Sqlite, [e], [e], filter, 1) && IsPage(Postgres, [], [e], filter, 1)
  {
    assert "user."[0] == 'u' && "USER.add"[0] == 'U';
  }

  // ---- Sorting ------------------------------------------------------------

  lemma {:induction false} PlacedMembers(s: seq<Event>, e: Event, x: Event)
    ensures |Placed(s, e)| == |s| + 1
    ensures x in Placed(s, e) <==> x == e || x in s
  {
    if s != [] {
      PlacedMembers(s[1..], e, x);
      assert s == [s[0]] + s[1..];
    }
  }

  lemma {:induction false} PlacedInOrder(s: seq<Event>, e: Event)
    requires NewestFirst(s) && forall x :: x in s ==> x.id != e.id
    ensures NewestFirst(Placed(s, e))
  {
    hide Newer;
    if s == [] {
    } else if Newer(Key(e), Key(s[0])) {
      ConsInOrder(e, s);
    } else {
      NewerTotal(Key(e), Key(s[0]));
      assert s == [s[0]] + s[1..];
      PlacedInOrder(s[1..], e);
      var rest := Placed(s[1..], e);
      forall x | x in rest ensures Newer(Key(s[0]), Key(x)) {
        PlacedMembers(s[1..], e, x);
        assert x in s[1..] ==> Newer(Key(s[0]), Key(x));
      }
      FrontInOrder(s[0], rest);
    }
  }

  lemma FrontInOrder(e: Event, s: seq<Event>)
    requires NewestFirst(s) && forall x :: x in s ==> Newer(Key(e), Key(x))
    ensures NewestFirst([e] + s)
  {
  }

  lemma ConsInOrder(e: Event, s: seq<Event>)
    requires NewestFirst(s) && s != [] && Newer(Key(e), Key(s[0]))
    ensures NewestFirst([e] + s)
  {
    hide Newer;
    forall x | x in s ensures Newer(Key(e), Key(x)) {
      var i :| 0 <= i < |s| && s[i] == x;
      if i > 0 {
        NewerTransitive(Key(e), Key(s[0]), Key(x));
      }
    }
    FrontInOrder(e, s);
  }

  lemma {:induction false} SelectedMembers(b: Backend, table: Table, conditions: seq<Condition>, e: Event)
    ensures e in Selected(b, table, conditions) <==> e in table && AllHold(b, conditions, e)
  {
    hide AllHold, Placed;
    if table != [] {
      var rest := table[1..];
      assert table == [table[0]] + rest;
      SelectedMembers(b, rest, conditions, e);
      SelectedStep(b, table, conditions);
      PlacedMembers(Selected(b, rest, conditions), table[0], e);
    }
  }

  lemma SelectedStep(b: Backend, table: Table, conditions: seq<Condition>)
    requires table != []
    ensures var rest := Selected(b, table[1..], conditions);
            Selected(b, table, conditions) == if AllHold(b, conditions, table[0]) then Placed(rest, table[0]) else rest
  {
    hide AllHold, Placed;
    var w := Where(b, table[1..], conditions);
    assert ([table[0]] + w)[1..] == w;
    assert [] + w == w;
  }

  lemma {:induction false} SelectedInOrder(b: Backend, table: Table, conditions: seq<Condition>)
    requires Keyed(table)
    ensures NewestFirst(Selected(b, table, conditions))
  {
    hide AllHold, Placed, Newer;
    if table != [] {
      var rest := table[1..];
      SelectedInOrder(b, rest, conditions);
      SelectedStep(b, table, conditions);
      forall x | x in Selected(b, rest, conditions) ensures x.id != table[0].id {
        SelectedMembers(b, rest, conditions, x);
        var i :| 0 <= i < |rest| && rest[i] == x;
        assert table[i + 1] == x;
      }
      if AllHold(b, conditions, table[0]) {
        PlacedInOrder(Selected(b, rest, conditions), table[0]);
      }
    }
  }

  // ---- `list` -------------------------------------------------------------

  lemma Added(conditions: seq<Condition>, c: Condition)
    ensures forall b, e :: AllHold(b, conditions + [c], e) <==> AllHold(b, conditions, e) && Holds(b, c, e)
  {
    var more := conditions + [c];
    forall b, e ensures AllHold(b, more, e) <==> AllHold(b, conditions, e) && Holds(b, c, e) {
      assert more[|conditions|] == c;
      if AllHold(b, more, e) {
        forall i | 0 <= i < |conditions| ensures Holds(b, conditions[i], e) {
          assert Holds(b, more[i], e);
        }
      }
    }
  }

  lemma Prefixes(prefix: string)
    ensures forall b, e :: Holds(b, ActionLike(Escaped(prefix) + "%"), e) <==> StartsWith(b, e.action, prefix)
  {
    forall b, e ensures Holds(b, ActionLike(Escaped(prefix) + "%"), e) <==> StartsWith(b, e.action, prefix) {
      LikeIsPrefix(b, prefix, e.action);
    }
  }

  /** The conditions a filter adds to the query, together, ask for exactly the filter's events. */
  method Conditions(filter: Filter) returns (cs: seq<Condition>)
    ensures forall b, e :: AllHold(b, cs, e) <==> Matches(b, filter, e)
  {
    hide AllHold, Escaped, Like, StartsWith;
    cs := [];
    ghost var part := Filter(None, None, None, None, None);
    assert forall b, e :: AllHold(b, cs, e) by {
      NoConditions();
    }
    if filter.actor.Some? {
      Added(cs, ActorIs(filter.actor.value));
      cs := cs + [ActorIs(filter.actor.value)];
    }
    part := part.(actor := filter.actor);
    assert forall b, e :: AllHold(b, cs, e) <==> Matches(b, part, e);
    if filter.token.Some? {
      Added(cs, TokenIs(filter.token.value));
      cs := cs + [TokenIs(filter.token.value)];
    }
    part := part.(token := filter.token);
    assert forall b, e :: AllHold(b, cs, e) <==> Matches(b, part, e);
    if filter.target.Some? {
      var (kind, id) := filter.target.value;
      Added(cs, TargetTypeIs(kind));
      cs := cs + [TargetTypeIs(kind)];
      Added(cs, TargetIdIs(id));
      cs := cs + [TargetIdIs(id)];
    }
    part := part.(target := filter.target);
    assert forall b, e :: AllHold(b, cs, e) <==> Matches(b, part, e);
    if filter.action.Some? {
      var action := filter.action.value;
      var c := if EndsInDot(action) then ActionLike(Escaped(action) + "%") else ActionIs(action);
      Prefixes(action);
      Added(cs, c);
      cs := cs + [c];
    }
    part := part.(action := filter.action);
    assert forall b, e :: AllHold(b, cs, e) <==> Matches(b, part, e);
    if filter.before.Some? {
      Added(cs, OlderThan(filter.before.value));
      cs := cs + [OlderThan(filter.before.value)];
    }
    assert part.(before := filter.before) == filter;
  }

  lemma NoConditions()
    ensures forall b, e :: AllHold(b, [], e)
  {
  }

  /** `list`: exactly the newest `limit` matching events, newest first. */
  method List(b: Backend, table: Table, filter: Filter, limit: nat) returns (r: seq<Event>)
    requires Keyed(table)
    ensures IsPage(b, r, table, filter, limit)
  {
    hide AllHold, Matches, Selected, Keyed;
    var cs := Conditions(filter);
    var all := Selected(b, table, cs);
    SelectedInOrder(b, table, cs);
    forall e ensures e in all <==> e in table && Matches(b, filter, e) {
      SelectedMembers(b, table, cs, e);
    }
    LimitedIsPage(b, all, table, filter, limit);
    return Limited(all, limit);
  }

  lemma LimitedIsPage(b: Backend, all: seq<Event>, table: Table, filter: Filter, limit: nat)
    requires IsListing(b, all, table, filter)
    ensures IsPage(b, Limited(all, limit), table, filter, limit)
  {
    hide Matches, Newer;
    var r := Limited(all, limit);
    assert forall i :: 0 <= i < |r| ==> r[i] == all[i];
    forall e | e in all && e !in r ensures |r| == limit && OlderThanAll(e, r) {
      var i :| 0 <= i < |all| && all[i] == e;
      assert i >= |r|;
    }
  }

  /** An unlimited page is the listing, and there is only one: a page is fixed by its contract. */
  lemma {:induction false} PageUnique(b: Backend, r: seq<Event>, s: seq<Event>, table: Table, filter: Filter, limit: nat)
    requires IsPage(b, r, table, filter, limit) && IsPage(b, s, table, filter, limit)
    ensures r == s
  {
    hide Matches, Newer;
    forall e ensures e in r <==> e in s {
      if e in r {
        PageIncluded(b, r, s, table, filter, limit, e);
      } else if e in s {
        PageIncluded(b, s, r, table, filter, limit, e);
      }
    }
    SameOrder(r, s);
  }

  lemma Included(r: seq<Event>, s: seq<Event>)
    requires NewestFirst(r) && forall e :: e in r ==> e in s
    ensures |r| <= |s| && (|r| == |s| ==> forall e :: e in s ==> e in r)
  {
    hide Newer;
    var x, y := set e | e in r, set e | e in s;
    OrderedCardinality(r);
    CardinalityBound(s);
    assert y == x + (y - x);
    assert |y| == |x| + |y - x|;
    if |r| == |s| {
      assert y - x == {};
      forall e | e in s ensures e in r {
        assert e in y && e in x;
      }
    }
  }

  lemma {:induction false} OrderedCardinality(s: seq<Event>)
    requires NewestFirst(s)
    ensures |set e | e in s| == |s|
  {
    hide Newer;
    if s == [] {
      assert (set e | e in s) == {};
    } else {
      var n := |s| - 1;
      assert s == s[..n] + [s[n]];
      OrderedCardinality(s[..n]);
      if s[n] in s[..n] {
        NewerStrict(Key(s[n]), Key(s[n]));
      }
      assert (set e | e in s) == (set e | e in s[..n]) + {s[n]};
    }
  }

  lemma {:induction false} CardinalityBound(s: seq<Event>)
    ensures |set e | e in s| <= |s|
  {
    if s == [] {
      assert (set e | e in s) == {};
    } else {
      var n := |s| - 1;
      assert s == s[..n] + [s[n]];
      CardinalityBound(s[..n]);
      assert (set e | e in s) == (set e | e in s[..n]) + {s[n]};
    }
  }

  lemma PageIncluded(b: Backend, r: seq<Event>, s: seq<Event>, table: Table, filter: Filter, limit: nat, e: Event)
    requires IsPage(b, r, table, filter, limit) && IsPage(b, s, table, filter, limit) && e in r
    ensures e in s
  {
    hide Matches, Newer;
    if e !in s {
      assert |s| == limit && OlderThanAll(e, s);
      forall x | x in s ensures x in r {
        if x !in r {
          assert OlderThanAll(x, r);
          NewerStrict(Key(x), Key(e));
        }
      }
      Included(s, r);
    }
  }

  lemma {:induction false} SameOrder(r: seq<Event>, s: seq<Event>)
    requires NewestFirst(r) && NewestFirst(s) && forall e :: e in r <==> e in s
    ensures r == s
  {
    hide Newer;
    assert s != [] ==> s[0] in s;
    assert r != [] ==> r[0] in r;
    if r != [] {
      HeadIsNewest(r, s[0]);
      HeadIsNewest(s, r[0]);
      NewerStrict(Key(r[0]), Key(s[0]));
      forall e ensures e in r[1..] <==> e in s[1..] {
        TailMembers(r, e);
        TailMembers(s, e);
      }
      SameOrder(r[1..], s[1..]);
      assert r == [r[0]] + r[1..] && s == [s[0]] + s[1..];
    }
  }

  lemma HeadIsNewest(s: seq<Event>, e: Event)
    requires NewestFirst(s) && e in s
    ensures e == s[0] || Newer(Key(s[0]), Key(e))
  {
  }

  lemma TailMembers(s: seq<Event>, e: Event)
    requires NewestFirst(s) && s != []
    ensures e in s[1..] <==> e in s && e != s[0]
  {
    hide Newer;
    if e in s[1..] {
      NewerStrict(Key(s[0]), Key(e));
    }
    assert s == [s[0]] + s[1..];
  }

  // ---- Page after page ----------------------------------------------------

  function Concat(pages: seq<seq<Event>>): seq<Event> {
    if pages == [] then [] else pages[0] + Concat(pages[1..])
  }

  /** The filter for the page after `page`: everything older than its last row. */
  function Next(filter: Filter, page: seq<Event>): Filter
    requires page != []
  {
    filter.(before := Some(Key(page[|page| - 1])))
  }

  /**
   A reader asks for page after page, going on only after a full one. The table
   may be a different one at each request.
   */
  ghost predicate Paged(b: Backend, tables: seq<Table>, filter: Filter, limit: nat, pages: seq<seq<Event>>)
    requires limit > 0
    decreases |pages|
  {
    && pages != [] && |pages| <= |tables| && IsPage(b, pages[0], tables[0], filter, limit)
    && (|pages| > 1 ==>
          |pages[0]| == limit && Paged(b, tables[1..], Next(filter, pages[0]), limit, pages[1..]))
  }

  /** The last page was not full, so there is no further cursor. */
  ghost predicate Finished(limit: nat, pages: seq<seq<Event>>) {
    pages != [] && |pages[|pages| - 1]| < limit
  }

  lemma NextMatches(b: Backend, filter: Filter, page: seq<Event>, e: Event)
    requires page != [] && Matches(b, filter, page[|page| - 1])
    ensures Matches(b, Next(filter, page), e) <==> Matches(b, filter, e) && Newer(Key(page[|page| - 1]), Key(e))
  {
    hide StartsWith, EndsInDot, Newer;
    var last := Key(page[|page| - 1]);
    if filter.before.Some? && Newer(last, Key(e)) {
      NewerTransitive(filter.before.value, last, Key(e));
    }
  }

  /**
   Whatever happens to the table between requests, the pages together are in
   newest-first order, so nothing is repeated, and hold only matching events.
   */
  lemma {:induction false} PagesInOrder(b: Backend, tables: seq<Table>, filter: Filter, limit: nat, pages: seq<seq<Event>>)
    requires limit > 0 && Paged(b, tables, filter, limit, pages)
    ensures NewestFirst(Concat(pages))
    ensures forall e :: e in Concat(pages) ==> Matches(b, filter, e)
    decreases |pages|
  {
    hide Matches, Newer;
    var page := pages[0];
    if |pages| == 1 {
      assert Concat(pages) == page;
    } else {
      PagesInOrder(b, tables[1..], Next(filter, page), limit, pages[1..]);
      var last, rest := page[|page| - 1], Concat(pages[1..]);
      forall e | e in rest ensures Matches(b, filter, e) && Newer(Key(last), Key(e)) {
        NextMatches(b, filter, page, e);
      }
      JoinInOrder(page, rest);
    }
  }

  lemma JoinInOrder(page: seq<Event>, rest: seq<Event>)
    requires NewestFirst(page) && NewestFirst(rest) && page != []
    requires forall e :: e in rest ==> Newer(Key(page[|page| - 1]), Key(e))
    ensures NewestFirst(page + rest)
  {
    hide Newer;
    var last := page[|page| - 1];
    forall d, e | d in page && e in rest ensures Newer(Key(d), Key(e)) {
      if d != last {
        NewerTransitive(Key(d), Key(last), Key(e));
      }
    }
  }

  /** Whatever else happens to the table, no event that is there at every request is missed. */
  lemma {:induction false} NothingMissed(b: Backend, tables: seq<Table>, filter: Filter, limit: nat, pages: seq<seq<Event>>, e: Event)
    requires limit > 0 && Paged(b, tables, filter, limit, pages) && Finished(limit, pages)
    requires Matches(b, filter, e) && forall k :: 0 <= k < |pages| ==> e in tables[k]
    ensures e in Concat(pages)
    decreases |pages|
  {
    hide Matches, Newer;
    var page := pages[0];
    assert e in tables[0];
    if e !in page {
      assert |page| == limit && OlderThanAll(e, page);
      NextMatches(b, filter, page, e);
      assert forall k :: 0 <= k < |pages| - 1 ==> tables[1..][k] == tables[k + 1];
      NothingMissed(b, tables[1..], Next(filter, page), limit, pages[1..], e);
    }
  }

  /** Every event returned was in the table at some request. */
  lemma {:induction false} NothingInvented(b: Backend, tables: seq<Table>, filter: Filter, limit: nat, pages: seq<seq<Event>>, e: Event)
    requires limit > 0 && Paged(b, tables, filter, limit, pages) && e in Concat(pages)
    ensures exists k :: 0 <= k < |pages| && e in tables[k]
    decreases |pages|
  {
    hide Matches, Newer;
    if e in pages[0] {
      assert e in tables[0];
    } else {
      NothingInvented(b, tables[1..], Next(filter, pages[0]), limit, pages[1..], e);
      var k :| 0 <= k < |pages| - 1 && e in tables[1..][k];
      assert tables[1..][k] == tables[k + 1];
    }
  }

  /** Later tables keep the first one's events; what they add is not older than the first page's last row. */
  ghost predicate OnlyNewerAdded(tables: seq<Table>, first: seq<Event>) {
    forall k, e :: 0 <= k < |tables| ==>
      && (e in tables[0] ==> e in tables[k])
      && (e in tables[k] && first != [] && Newer(Key(first[|first| - 1]), Key(e)) ==> e in tables[0])
  }

  lemma PagesComeFromFirst(b: Backend, tables: seq<Table>, filter: Filter, limit: nat, pages: seq<seq<Event>>, e: Event)
    requires limit > 0 && Paged(b, tables, filter, limit, pages) && OnlyNewerAdded(tables, pages[0])
    requires e in Concat(pages)
    ensures e in tables[0] && Matches(b, filter, e)
  {
    hide Matches, Newer;
    PagesInOrder(b, tables, filter, limit, pages);
    var page := pages[0];
    if e !in page {
      var later, next := tables[1..], Next(filter, page);
      PagesInOrder(b, later, next, limit, pages[1..]);
      NothingInvented(b, later, next, limit, pages[1..], e);
      NextMatches(b, filter, page, e);
      var k :| 0 <= k < |pages| - 1 && e in later[k];
      assert later[k] == tables[k + 1];
    }
  }

  /**
   Paging to the end with any limit of at least 1 gives exactly the one
   unlimited listing of the table as it was at the first request, even if newer
   events are added between requests.
   */
  lemma PagesAreTheListing(b: Backend, tables: seq<Table>, filter: Filter, limit: nat, pages: seq<seq<Event>>, all: seq<Event>)
    requires limit > 0 && Paged(b, tables, filter, limit, pages) && OnlyNewerAdded(tables, pages[0])
    requires IsListing(b, all, tables[0], filter) && Finished(limit, pages)
    ensures Concat(pages) == all
  {
    hide Matches, Newer;
    PagesInOrder(b, tables, filter, limit, pages);
    forall e ensures e in Concat(pages) <==> e in all {
      if e in Concat(pages) {
        PagesComeFromFirst(b, tables, filter, limit, pages, e);
      }
      if e in all {
        NothingMissed(b, tables, filter, limit, pages, e);
      }
    }
    SameOrder(Concat(pages), all);
  }

  lemma {:induction false} ConcatLength(b: Backend, tables: seq<Table>, filter: Filter, limit: nat, pages: seq<seq<Event>>)
    requires limit > 0 && Paged(b, tables, filter, limit, pages)
    ensures |Concat(pages)| == (|pages| - 1) * limit + |pages[|pages| - 1]|
    ensures |pages[|pages| - 1]| <= limit
    decreases |pages|
  {
    hide Matches, NewestFirst;
    if |pages| > 1 {
      ConcatLength(b, tables[1..], Next(filter, pages[0]), limit, pages[1..]);
      assert (|pages| - 2) * limit + limit == (|pages| - 1) * limit;
    } else {
      assert Concat(pages) == pages[0];
    }
  }

  /** Paging ends: each full page but the last is spent on the listing, and the first page that reaches past its end is the last. */
  lemma PagingEnds(b: Backend, tables: seq<Table>, filter: Filter, limit: nat, pages: seq<seq<Event>>, all: seq<Event>)
    requires limit > 0 && Paged(b, tables, filter, limit, pages) && OnlyNewerAdded(tables, pages[0])
    requires IsListing(b, all, tables[0], filter)
    ensures (|pages| - 1) * limit <= |all|
    ensures Finished(limit, pages) <==> |all| < |pages| * limit
  {
    hide Matches, Newer, OnlyNewerAdded, NewestFirst, IsPage;
    ConcatLength(b, tables, filter, limit, pages);
    assert |pages| * limit == (|pages| - 1) * limit + limit;
    if Finished(limit, pages) {
      PagesAreTheListing(b, tables, filter, limit, pages, all);
    } else {
      PagesInOrder(b, tables, filter, limit, pages);
      forall e | e in Concat(pages) ensures e in all {
        PagesComeFromFirst(b, tables, filter, limit, pages, e);
      }
      Included(Concat(pages), all);
    }
  }
}
