/**
 server/src/targets.rs: which devices a target covers, decided in memory and by
 an SQL condition. SQL is filtering, grouping and counting over finite tables;
 a comparison with NULL holds for no row.
 */
module Targets {
  import opened Bytes
  import opened Strings

  type Id = string

  datatype TagMatch = AnyTag | AllTags

  datatype Target = Devices(ids: seq<Id>) | Companies(companies: seq<Id>) | Tags(tags: seq<Id>, matching: TagMatch) | All

  datatype Device = Device(id: Id, company: Option<Id>, tagIds: seq<Id>)

  /** `Target::covers`. */
  predicate Covers(target: Target, device: Device) {
    match target
    case All => true
    case Devices(ids) => device.id in ids
    case Companies(ids) => device.company.Some? && device.company.value in ids
    case Tags(ids, AnyTag) => exists i :: 0 <= i < |ids| && ids[i] in device.tagIds
    case Tags(ids, AllTags) => ids != [] && forall i :: 0 <= i < |ids| ==> ids[i] in device.tagIds
  }

  // ---- The query ----------------------------------------------------------

  datatype AgentRow = AgentRow(id: Id, company: Option<Id>)

  datatype TagRow = TagRow(device: Id, tag: Id)

  /** `WHERE tag_id IN (ids)`. */
  function Where(rows: seq<TagRow>, ids: seq<Id>): seq<TagRow> {
    if rows == [] then []
    else
      var last := rows[|rows| - 1];
      Where(rows[..|rows| - 1], ids) + if last.tag in ids then [last] else []
  }

  /** `COUNT(tag_id)` over the group of `device`. */
  function Count(rows: seq<TagRow>, device: Id): nat {
    if rows == [] then 0
    else Count(rows[..|rows| - 1], device) + if rows[|rows| - 1].device == device then 1 else 0
  }

  predicate HasRow(rows: seq<TagRow>, device: Id) { exists i :: 0 <= i < |rows| && rows[i].device == device }

  /** `tagged`: whether the subquery's result holds `device`. A device has a group only if it has a row. */
  predicate InTagged(rows: seq<TagRow>, ids: seq<Id>, matching: TagMatch, device: Id) {
    var filtered := Where(rows, ids);
    && HasRow(filtered, device)
    && (matching.AllTags? ==> Count(filtered, device) == |ids|)
  }

  /** `Target::condition`, for one row of the agents table. */
  predicate Satisfies(target: Target, row: AgentRow, tags: seq<TagRow>) {
    match target
    case All => true
    case Devices(ids) => row.id in ids
    case Companies(ids) => row.company.Some? && row.company.value in ids
    case Tags(ids, matching) => InTagged(tags, ids, matching, row.id)
  }

  /** The device a row describes, with its tags as the table has them. */
  ghost predicate Describes(device: Device, row: AgentRow, tags: seq<TagRow>) {
    && device.id == row.id && device.company == row.company
    && forall t :: t in device.tagIds <==> TagRow(row.id, t) in tags
  }

  predicate Distinct<T(==)>(s: seq<T>) { forall i, j :: 0 <= i < j < |s| ==> s[i] != s[j] }

  // ---- Counting tags ------------------------------------------------------

  /** The wanted tags a device has. */
  function Matched(rows: seq<TagRow>, ids: seq<Id>, device: Id): set<Id> {
    set t | t in ids && TagRow(device, t) in rows
  }

  lemma WhereStep(rows: seq<TagRow>, row: TagRow, ids: seq<Id>, device: Id)
    ensures Count(Where(rows + [row], ids), device)
         == Count(Where(rows, ids), device) + if row.tag in ids && row.device == device then 1 else 0
  {
    assert (rows + [row])[..|rows|] == rows;
    var w := Where(rows, ids);
    assert (w + [row])[..|w|] == w;
    assert w + [] == w;
  }

  /** With each pair of device and tag at most once, the count is the number of wanted tags the device has. */
  lemma {:induction false} CountIsMatched(rows: seq<TagRow>, ids: seq<Id>, device: Id)
    requires Distinct(rows)
    ensures Count(Where(rows, ids), device) == |Matched(rows, ids, device)|
  {
    hide Where, Count;
    if rows == [] {
      NothingCounted(ids, device);
      assert Matched(rows, ids, device) == {};
    } else {
      var n := |rows| - 1;
      assert rows == rows[..n] + [rows[n]];
      CountIsMatched(rows[..n], ids, device);
      WhereStep(rows[..n], rows[n], ids, device);
      MatchedStep(rows[..n], rows[n], ids, device);
    }
  }

  lemma NothingCounted(ids: seq<Id>, device: Id)
    ensures Count(Where([], ids), device) == 0
  {
  }

  lemma MatchedStep(before: seq<TagRow>, row: TagRow, ids: seq<Id>, device: Id)
    requires row !in before
    ensures |Matched(before + [row], ids, device)|
         == |Matched(before, ids, device)| + if row.tag in ids && row.device == device then 1 else 0
  {
    var m, all := Matched(before, ids, device), Matched(before + [row], ids, device);
    if row.tag in ids && row.device == device {
      assert row == TagRow(device, row.tag) && row.tag !in m;
      assert all == m + {row.tag};
    } else {
      assert all == m;
    }
  }

  function Elements(ids: seq<Id>): set<Id> { set t | t in ids }

  /** A list has as many different elements as entries exactly when no entry repeats. */
  lemma {:induction false} DistinctIsCardinality(ids: seq<Id>)
    ensures |Elements(ids)| <= |ids|
    ensures |Elements(ids)| == |ids| <==> Distinct(ids)
  {
    if ids == [] {
      assert Elements(ids) == {};
    } else {
      var n := |ids| - 1;
      var before, last := ids[..n], ids[n];
      DistinctIsCardinality(before);
      assert ids == before + [last];
      if last in before {
        assert Elements(ids) == Elements(before);
        var i :| 0 <= i < n && before[i] == last;
        assert ids[i] == ids[n];
      } else {
        assert Elements(ids) == Elements(before) + {last};
        assert Distinct(before) ==> Distinct(ids);
        assert Distinct(ids) ==> Distinct(before) by {
          assert forall i :: 0 <= i < n ==> before[i] == ids[i];
        }
      }
    }
  }

  lemma SubsetOfEqualSize<T>(a: set<T>, b: set<T>)
    requires a <= b && |a| == |b|
    ensures a == b
  {
    assert b == a + (b - a);
    assert |b| == |a| + |b - a|;
  }

  lemma SubsetSize<T>(a: set<T>, b: set<T>)
    requires a <= b
    ensures |a| <= |b|
  {
    assert b == a + (b - a);
  }

  lemma {:induction false} WhereMembers(rows: seq<TagRow>, ids: seq<Id>, row: TagRow)
    ensures row in Where(rows, ids) <==> row in rows && row.tag in ids
  {
    if rows != [] {
      var n := |rows| - 1;
      WhereMembers(rows[..n], ids, row);
      assert rows == rows[..n] + [rows[n]];
    }
  }

  /** The device has a row left exactly when it has a wanted tag. */
  lemma HasGroup(rows: seq<TagRow>, ids: seq<Id>, device: Id)
    ensures HasRow(Where(rows, ids), device) <==> Matched(rows, ids, device) != {}
  {
    var filtered := Where(rows, ids);
    if i :| 0 <= i < |filtered| && filtered[i].device == device {
      WhereMembers(rows, ids, filtered[i]);
      assert filtered[i] == TagRow(device, filtered[i].tag);
      assert filtered[i].tag in Matched(rows, ids, device);
    }
    if t :| t in Matched(rows, ids, device) {
      WhereMembers(rows, ids, TagRow(device, t));
      var i :| 0 <= i < |filtered| && filtered[i] == TagRow(device, t);
    }
  }

  // ---- The two forms agree ------------------------------------------------

  /** The tags wanted are listed more than once, and the device has them all. */
  ghost predicate Miscounted(target: Target, device: Device) {
    && target.Tags? && target.matching == AllTags && !Distinct(target.tags)
    && forall t :: t in target.tags ==> t in device.tagIds
  }

  /**
   For every target, row and table of distinct pairs: the SQL condition and the
   predicate agree, except exactly for a repeated tag of an "all tags" target
   on a device that has all its tags, which the count then misses.
   */
  lemma ConditionVersusCovers(target: Target, device: Device, row: AgentRow, tags: seq<TagRow>)
    requires Describes(device, row, tags) && Distinct(tags)
    ensures (Satisfies(target, row, tags) <==> Covers(target, device)) <==> !Miscounted(target, device)
  {
    match target
    case All =>
    case Devices(_) =>
    case Companies(_) =>
    case Tags(ids, AnyTag) => AnyAgrees(ids, device, row, tags);
    case Tags(ids, AllTags) => AllAgrees(ids, device, row, tags);
  }

  lemma AnyAgrees(ids: seq<Id>, device: Device, row: AgentRow, tags: seq<TagRow>)
    requires Describes(device, row, tags)
    ensures InTagged(tags, ids, AnyTag, row.id) <==> Covers(Tags(ids, AnyTag), device)
  {
    hide Where, Count, Describes, Matched, HasRow;
    HasGroup(tags, ids, row.id);
    MatchedAny(ids, device, row, tags);
  }

  lemma AllAgrees(ids: seq<Id>, device: Device, row: AgentRow, tags: seq<TagRow>)
    requires Describes(device, row, tags) && Distinct(tags)
    ensures (InTagged(tags, ids, AllTags, row.id) <==> Covers(Tags(ids, AllTags), device))
       <==> !Miscounted(Tags(ids, AllTags), device)
  {
    hide Where, Count, Describes, Distinct, Matched;
    HasGroup(tags, ids, row.id);
    CountIsMatched(tags, ids, row.id);
    MatchedAll(ids, device, row, tags);
    NothingRepeats();
    var all := forall t :: t in ids ==> t in device.tagIds;
    assert Covers(Tags(ids, AllTags), device) <==> all && ids != [];
    assert Miscounted(Tags(ids, AllTags), device) <==> all && !Distinct(ids);
    assert InTagged(tags, ids, AllTags, row.id) <==> all && ids != [] && Distinct(ids);
  }

  lemma NothingRepeats()
    ensures Distinct<Id>([])
  {
  }

  lemma MatchedAny(ids: seq<Id>, device: Device, row: AgentRow, tags: seq<TagRow>)
    requires Describes(device, row, tags)
    ensures Matched(tags, ids, row.id) != {} <==> exists i :: 0 <= i < |ids| && ids[i] in device.tagIds
  {
    if i :| 0 <= i < |ids| && ids[i] in device.tagIds {
      assert ids[i] in Matched(tags, ids, row.id);
    }
    if t :| t in Matched(tags, ids, row.id) {
      var i :| 0 <= i < |ids| && ids[i] == t;
    }
  }

  lemma MatchedAll(ids: seq<Id>, device: Device, row: AgentRow, tags: seq<TagRow>)
    requires Describes(device, row, tags)
    ensures var m := Matched(tags, ids, row.id);
            var all := forall t :: t in ids ==> t in device.tagIds;
            && (all <==> forall i :: 0 <= i < |ids| ==> ids[i] in device.tagIds)
            && (all ==> (m != {} <==> ids != []) && (|m| == |ids| <==> Distinct(ids)))
            && (!all ==> |m| != |ids|)
  {
    var m := Matched(tags, ids, row.id);
    assert forall i :: 0 <= i < |ids| ==> ids[i] in ids;
    DistinctIsCardinality(ids);
    SubsetSize(m, Elements(ids));
    if forall t :: t in ids ==> t in device.tagIds {
      assert m == Elements(ids);
      assert ids != [] ==> ids[0] in m;
    } else {
      var t :| t in ids && t !in device.tagIds;
      assert t in Elements(ids) && t !in m;
      if |m| == |ids| {
        SubsetOfEqualSize(m, Elements(ids));
      }
    }
  }

  // ---- Targets from requests ----------------------------------------------

  datatype TargetKind = DevicesKind | CompaniesKind | TagsKind | AllKind

  datatype Choice = Choice(deviceIds: seq<Id>, companyIds: seq<Id>, tagIds: seq<Id>, tagMatch: TagMatch)

  const MAX_CHOSEN_DEVICES: nat := 10_000

  predicate HexDigit(c: char) { '0' <= c <= '9' || 'a' <= c <= 'f' }

  /** A UUID in its hyphenated lowercase form, the only one `parse_id` accepts. */
  predicate Canonical(id: Id) {
    |id| == 36 &&
    forall i :: 0 <= i < 36 ==> if i == 8 || i == 13 || i == 18 || i == 23 then id[i] == '-' else HexDigit(id[i])
  }

  /** In order, without repeats. */
  predicate Ascending(ids: seq<Id>) { forall i, j :: 0 <= i < j < |ids| ==> Below(ids[i], ids[j]) }

  /** Sorting and removing repeats, by inserting each ID in its place. */
  method SortDedup(ids: seq<Id>) returns (r: seq<Id>)
    ensures Ascending(r) && Elements(r) == Elements(ids)
  {
    r := [];
    for n := 0 to |ids|
      invariant Ascending(r) && Elements(r) == Elements(ids[..n])
    {
      r := Insert(r, ids[n]);
      assert ids[..n + 1] == ids[..n] + [ids[n]];
    }
    assert ids[..|ids|] == ids;
  }

  method Insert(ids: seq<Id>, id: Id) returns (r: seq<Id>)
    requires Ascending(ids)
    ensures Ascending(r) && Elements(r) == Elements(ids) + {id}
  {
    hide Below;
    var at := 0;
    while at < |ids| && Below(ids[at], id)
      invariant at <= |ids| && forall i :: 0 <= i < at ==> Below(ids[i], id)
    {
      at := at + 1;
    }
    if at < |ids| && ids[at] == id {
      assert Elements(ids) == Elements(ids) + {id};
      return ids;
    }
    if at < |ids| {
      BelowTotal(ids[at], id);
    }
    InsertedInOrder(ids, at, id);
    return ids[..at] + [id] + ids[at..];
  }

  lemma InsertedInOrder(ids: seq<Id>, at: nat, id: Id)
    requires Ascending(ids) && at <= |ids| && forall i :: 0 <= i < at ==> Below(ids[i], id)
    requires at < |ids| ==> Below(id, ids[at])
    ensures var r := ids[..at] + [id] + ids[at..]; Ascending(r) && Elements(r) == Elements(ids) + {id}
  {
    hide Below;
    forall i | at <= i < |ids| ensures Below(id, ids[i]) {
      if at < i {
        BelowTransitive(id, ids[at], ids[i]);
      }
    }
    InsertedElements(ids, at, id);
  }

  lemma InsertedElements(ids: seq<Id>, at: nat, id: Id)
    requires at <= |ids|
    ensures Elements(ids[..at] + [id] + ids[at..]) == Elements(ids) + {id}
  {
    assert ids == ids[..at] + ids[at..];
  }

  lemma AscendingIsDistinct(ids: seq<Id>)
    requires Ascending(ids)
    ensures Distinct(ids)
  {
    forall i, j | 0 <= i < j < |ids| ensures ids[i] != ids[j] {
      BelowStrict(ids[i], ids[j]);
    }
  }

  /** Checks the form of each ID, then sorts and removes repeats. */
  method ParseIds(ids: seq<Id>) returns (r: Result<seq<Id>>)
    ensures r.Ok? <==> forall i :: 0 <= i < |ids| ==> Canonical(ids[i])
    ensures r.Ok? ==> Ascending(r.value) && Elements(r.value) == Elements(ids)
  {
    for n := 0 to |ids|
      invariant forall i :: 0 <= i < n ==> Canonical(ids[i])
    {
      if !Canonical(ids[n]) {
        return Err;
      }
    }
    var sorted := SortDedup(ids);
    return Ok(sorted);
  }

  function ChosenIds(kind: TargetKind, choice: Choice): seq<Id> {
    match kind
    case DevicesKind => choice.deviceIds
    case CompaniesKind => choice.companyIds
    case TagsKind => choice.tagIds
    case AllKind => []
  }

  function TargetIds(target: Target): seq<Id> {
    match target
    case Devices(ids) => ids
    case Companies(ids) => ids
    case Tags(ids, _) => ids
    case All => []
  }

  predicate OfKind(target: Target, kind: TargetKind) {
    match kind
    case DevicesKind => target.Devices?
    case CompaniesKind => target.Companies?
    case TagsKind => target.Tags?
    case AllKind => target.All?
  }

  predicate Acceptable(kind: TargetKind, ids: seq<Id>) {
    || kind.AllKind?
    || (&& ids != [] && (kind.DevicesKind? ==> |ids| <= MAX_CHOSEN_DEVICES)
        && forall i :: 0 <= i < |ids| ==> Canonical(ids[i]))
  }

  /** `Target::from_request`. */
  method FromRequest(kind: TargetKind, choice: Choice) returns (r: Result<Target>)
    ensures r.Ok? <==> Acceptable(kind, ChosenIds(kind, choice))
    ensures r.Ok? ==>
              && OfKind(r.value, kind) && Distinct(TargetIds(r.value))
              && Elements(TargetIds(r.value)) == Elements(ChosenIds(kind, choice))
              && (r.value.Tags? ==> r.value.matching == choice.tagMatch)
  {
    hide Canonical, Below;
    var ids := ChosenIds(kind, choice);
    if kind == AllKind {
      return Ok(All);
    }
    if ids == [] || (kind == DevicesKind && |ids| > MAX_CHOSEN_DEVICES) {
      return Err;
    }
    var sorted :- ParseIds(ids);
    AscendingIsDistinct(sorted);
    match kind
    case DevicesKind => return Ok(Devices(sorted));
    case CompaniesKind => return Ok(Companies(sorted));
    case TagsKind => return Ok(Tags(sorted, choice.tagMatch));
    case AllKind => return Ok(All);
  }

  /** For every target a request makes, the SQL condition holds for a row exactly when the target covers its device. */
  lemma RequestedTargetsAgree(target: Target, device: Device, row: AgentRow, tags: seq<TagRow>)
    requires Distinct(TargetIds(target)) && Describes(device, row, tags) && Distinct(tags)
    ensures Satisfies(target, row, tags) <==> Covers(target, device)
  {
    ConditionVersusCovers(target, device, row, tags);
  }

  /** What a stored list that repeats a tag would do. */
  lemma RepeatedTagDisagrees(tag: Id, id: Id)
    ensures var target := Tags([tag, tag], AllTags);
            var device, row, tags := Device(id, None, [tag]), AgentRow(id, None), [TagRow(id, tag)];
            Covers(target, device) && !Satisfies(target, row, tags)
  {
    var target := Tags([tag, tag], AllTags);
    var device, row, tags := Device(id, None, [tag]), AgentRow(id, None), [TagRow(id, tag)];
    assert [tag, tag][0] == [tag, tag][1];
    assert !Distinct([tag, tag]);
    ConditionVersusCovers(target, device, row, tags);
  }
}
