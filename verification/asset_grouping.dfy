/** The list processing of `getGroupedAssets`, after the database read that
    returns every asset ordered by `createdAt`, newest first.

    Assets are grouped by `groupId` in a record filled by one `forEach`
    pass, the record's entries become groups whose `latestAt` is the first
    item's `createdAt`, and the groups are sorted newest first with a
    stable sort. `createdAt` is a millisecond timestamp. */
module AssetGrouping {
  import opened Wrappers
  import opened Schemas

  /** One row of the `assets` table; `metadata` is left out. */
  datatype Asset = Asset(
    id: string,
    assetType: AssetType,
    content: string,
    prompt: string,
    status: AssetStatus,
    groupId: string,
    createdAt: int)

  // ---------------------------------------------------------------------
  // Reference: which groups there are and what each holds
  // ---------------------------------------------------------------------

  /** The assets of group `k`, in input order. */
  function WithGroup(xs: seq<Asset>, k: string): (r: seq<Asset>)
    ensures forall a :: a in r ==> a in xs && a.groupId == k
    ensures forall a :: a in xs && a.groupId == k ==> a in r
  {
    if |xs| == 0 then []
    else
      var last := xs[|xs| - 1];
      assert xs == xs[..|xs| - 1] + [last];
      WithGroup(xs[..|xs| - 1], k) + (if last.groupId == k then [last] else [])
  }

  /** The distinct group ids of `xs`, in order of first appearance. */
  function GroupIds(xs: seq<Asset>): (r: seq<string>)
    ensures forall i, j :: 0 <= i < j < |r| ==> r[i] != r[j]
    ensures forall a :: a in xs ==> a.groupId in r
  {
    if |xs| == 0 then []
    else
      var last := xs[|xs| - 1];
      var ids := GroupIds(xs[..|xs| - 1]);
      assert xs == xs[..|xs| - 1] + [last];
      if last.groupId in ids then ids else ids + [last.groupId]
  }

  /** The ids listed are exactly those some asset carries. */
  lemma {:induction false} GroupIdsAreTheOccurringIds(xs: seq<Asset>, k: string)
    ensures k in GroupIds(xs) <==> WithGroup(xs, k) != []
    decreases |xs|
  {
    if |xs| > 0 {
      GroupIdsAreTheOccurringIds(xs[..|xs| - 1], k);
    }
  }

  // ---------------------------------------------------------------------
  // The forEach pass
  // ---------------------------------------------------------------------

  /** One `groups[groupId]` slot: the key and the array pushed into. */
  datatype Entry = Entry(groupId: string, items: seq<Asset>)

  /** Position of key `k` among the record's entries, or `|acc|`. */
  function FindEntry(acc: seq<Entry>, k: string, i: nat): (n: nat)
    requires i <= |acc|
    ensures i <= n <= |acc|
    ensures n < |acc| ==> acc[n].groupId == k
    ensures forall m :: i <= m < n ==> acc[m].groupId != k
    decreases |acc| - i
  {
    if i == |acc| || acc[i].groupId == k then i else FindEntry(acc, k, i + 1)
  }

  /** One iteration: create the slot if absent, then push the asset. */
  function Push(acc: seq<Entry>, a: Asset): seq<Entry> {
    var n := FindEntry(acc, a.groupId, 0);
    if n == |acc| then acc + [Entry(a.groupId, [a])]
    else acc[n := Entry(acc[n].groupId, acc[n].items + [a])]
  }

  /** The record after the whole `forEach`, its entries in insertion order.
      It has one entry per distinct group id, in order of first appearance,
      holding exactly that group's assets in input order. */
  function Collect(xs: seq<Asset>): (r: seq<Entry>)
    ensures RecordFor(r, xs)
  {
    if |xs| == 0 then []
    else
      var acc := Collect(xs[..|xs| - 1]);
      PushStep(xs, acc);
      Push(acc, xs[|xs| - 1])
  }

  /** `acc` is the record for `xs` when it has one entry per group id, in
      order of first appearance, holding that group's assets. */
  ghost predicate RecordFor(acc: seq<Entry>, xs: seq<Asset>) {
    && |acc| == |GroupIds(xs)|
    && forall n :: 0 <= n < |acc| ==>
         acc[n] == Entry(GroupIds(xs)[n], WithGroup(xs, GroupIds(xs)[n]))
  }

  /** One more asset: its group gains it at the end, or a new group with
      only it is appended; every other group is as before. */
  lemma PushStep(xs: seq<Asset>, acc: seq<Entry>)
    requires |xs| > 0
    requires RecordFor(acc, xs[..|xs| - 1])
    ensures RecordFor(Push(acc, xs[|xs| - 1]), xs)
  {
    var p, last := xs[..|xs| - 1], xs[|xs| - 1];
    assert xs == p + [last];
    var n := FindEntry(acc, last.groupId, 0);
    if n == |acc| {
      PushNewGroup(p, last, acc);
    } else {
      PushExistingGroup(p, last, acc, n);
    }
  }

  /** Appending an asset appends it to its own group only. */
  lemma WithGroupSnoc(p: seq<Asset>, last: Asset, k: string)
    ensures WithGroup(p + [last], k) == WithGroup(p, k) + (if last.groupId == k then [last] else [])
  {
    assert (p + [last])[..|p|] == p;
  }

  lemma GroupIdsSnoc(p: seq<Asset>, last: Asset)
    ensures GroupIds(p + [last]) ==
      if last.groupId in GroupIds(p) then GroupIds(p) else GroupIds(p) + [last.groupId]
  {
    assert (p + [last])[..|p|] == p;
  }

  /** The last asset opens a new group. */
  lemma PushNewGroup(p: seq<Asset>, last: Asset, acc: seq<Entry>)
    requires RecordFor(acc, p)
    requires FindEntry(acc, last.groupId, 0) == |acc|
    ensures RecordFor(Push(acc, last), p + [last])
  {
    var ids := GroupIds(p);
    var r := Push(acc, last);
    assert last.groupId !in ids;
    GroupIdsAreTheOccurringIds(p, last.groupId);
    GroupIdsSnoc(p, last);
    assert r == acc + [Entry(last.groupId, [last])];
    forall n | 0 <= n < |r|
      ensures r[n] == Entry(GroupIds(p + [last])[n], WithGroup(p + [last], GroupIds(p + [last])[n]))
    {
      if n < |acc| {
        WithGroupSnoc(p, last, ids[n]);
      } else {
        WithGroupSnoc(p, last, last.groupId);
      }
    }
  }

  /** The last asset joins the group at entry `n`. */
  lemma PushExistingGroup(p: seq<Asset>, last: Asset, acc: seq<Entry>, n: nat)
    requires RecordFor(acc, p)
    requires n == FindEntry(acc, last.groupId, 0) < |acc|
    ensures RecordFor(Push(acc, last), p + [last])
  {
    var ids := GroupIds(p);
    var r := Push(acc, last);
    assert ids[n] == last.groupId;
    GroupIdsSnoc(p, last);
    forall m | 0 <= m < |r|
      ensures r[m] == Entry(GroupIds(p + [last])[m], WithGroup(p + [last], GroupIds(p + [last])[m]))
    {
      WithGroupSnoc(p, last, ids[m]);
    }
  }

  // ---------------------------------------------------------------------
  // Groups and their order
  // ---------------------------------------------------------------------

  datatype Group = Group(groupId: string, items: seq<Asset>, latestAt: Option<int>)

  /** `{ groupId, items, latestAt: items[0]?.createdAt }`. */
  function ToGroup(e: Entry): Group {
    Group(e.groupId, e.items, if |e.items| > 0 then Some(e.items[0].createdAt) else None)
  }

  function ToGroups(es: seq<Entry>): (gs: seq<Group>)
    ensures |gs| == |es|
    ensures forall n :: 0 <= n < |es| ==> gs[n] == ToGroup(es[n])
  {
    if |es| == 0 then [] else [ToGroup(es[0])] + ToGroups(es[1..])
  }

  /** The comparator's time: `latestAt`, or 0 when it is missing. */
  function Key(g: Group): int {
    match g.latestAt
    case Some(t) => t
    case None => 0
  }

  /** Newest first. */
  predicate SortedByLatest(gs: seq<Group>) {
    forall i, j :: 0 <= i < j < |gs| ==> Key(gs[i]) >= Key(gs[j])
  }

  /** The groups with time `v`, in order. */
  function WithKey(gs: seq<Group>, v: int): seq<Group> {
    if |gs| == 0 then []
    else (if Key(gs[0]) == v then [gs[0]] else []) + WithKey(gs[1..], v)
  }

  /** Where a group with time `v` goes in a newest-first list so that it
      follows every strictly newer group and precedes the rest. */
  function InsertionPoint(s: seq<Group>, v: int): (p: nat)
    ensures p <= |s|
    ensures forall m :: 0 <= m < p ==> Key(s[m]) > v
    ensures p < |s| ==> Key(s[p]) <= v
  {
    if |s| == 0 || Key(s[0]) <= v then 0 else 1 + InsertionPoint(s[1..], v)
  }

  function Insert(g: Group, s: seq<Group>): (r: seq<Group>)
    ensures |r| == |s| + 1
  {
    var p := InsertionPoint(s, Key(g));
    s[..p] + [g] + s[p..]
  }

  /** `.sort((a, b) => timeB - timeA)`: a stable sort, newest first. */
  function SortByLatest(gs: seq<Group>): (r: seq<Group>)
    ensures |r| == |gs|
    ensures multiset(r) == multiset(gs)
    ensures SortedByLatest(r)
    ensures forall v :: WithKey(r, v) == WithKey(gs, v)
  {
    if |gs| == 0 then []
    else
      var s := SortByLatest(gs[1..]);
      InsertSorted(gs[0], s);
      assert gs == [gs[0]] + gs[1..];
      forall v ensures WithKey(Insert(gs[0], s), v) == WithKey(gs, v) {
        InsertKeepsOrderOfEqualKeys(gs[0], s, v);
      }
      Insert(gs[0], s)
  }

  /** Inserting into a newest-first list keeps it newest first and adds
      exactly the one group. */
  lemma InsertSorted(g: Group, s: seq<Group>)
    requires SortedByLatest(s)
    ensures SortedByLatest(Insert(g, s))
    ensures multiset(Insert(g, s)) == multiset{g} + multiset(s)
  {
    var p := InsertionPoint(s, Key(g));
    var r := Insert(g, s);
    InsertMultiset(g, s, p);
    forall i, j | 0 <= i < j < |r| ensures Key(r[i]) >= Key(r[j]) {
      InsertPairOrdered(g, s, i, j);
    }
  }

  /** Any two positions of the inserted list are in newest-first order. */
  lemma InsertPairOrdered(g: Group, s: seq<Group>, i: nat, j: nat)
    requires SortedByLatest(s) && i < j <= |s|
    ensures Key(Insert(g, s)[i]) >= Key(Insert(g, s)[j])
  {
    var p := InsertionPoint(s, Key(g));
    var r := Insert(g, s);
    assert r == s[..p] + [g] + s[p..];
    if j < p {
      assert r[i] == s[i] && r[j] == s[j];
    } else if j == p {
      assert r[i] == s[i] && r[j] == g;
    } else if i < p {
      assert r[i] == s[i] && r[j] == s[j - 1];
    } else if i == p {
      assert r[i] == g && r[j] == s[j - 1];
    } else {
      assert r[i] == s[i - 1] && r[j] == s[j - 1];
    }
  }

  lemma InsertMultiset(g: Group, s: seq<Group>, p: nat)
    requires p <= |s|
    ensures multiset(s[..p] + [g] + s[p..]) == multiset{g} + multiset(s)
  {
    assert s == s[..p] + s[p..];
  }

  /** `getGroupedAssets` from the rows as the database returns them. For
      any input: the groups are newest first, one per distinct id, with
      distinct ids; each holds exactly the assets of its id in input order,
      is non-empty and has its first item's time as `latestAt`; and every
      input asset is in the group of its own id. */
  function GroupedAssets(xs: seq<Asset>): (r: seq<Group>)
    ensures SortedByLatest(r)
    ensures |r| == |GroupIds(xs)| && DistinctIds(r)
    ensures forall g :: g in r ==>
      && g.items == WithGroup(xs, g.groupId)
      && |g.items| > 0
      && g.latestAt == Some(g.items[0].createdAt)
    ensures forall a :: a in xs ==> exists g :: g in r && g.groupId == a.groupId && a in g.items
  {
    SortedGroupsSpec(xs);
    SortByLatest(ToGroups(Collect(xs)))
  }

  // ---------------------------------------------------------------------
  // Lemmas
  // ---------------------------------------------------------------------

  lemma {:induction false} WithKeyConcat(a: seq<Group>, b: seq<Group>, v: int)
    ensures WithKey(a + b, v) == WithKey(a, v) + WithKey(b, v)
    decreases |a|
  {
    if |a| > 0 {
      assert (a + b)[1..] == a[1..] + b;
      WithKeyConcat(a[1..], b, v);
    } else {
      assert a + b == b;
    }
  }

  lemma {:induction false} WithKeyNewer(s: seq<Group>, v: int)
    requires forall m :: 0 <= m < |s| ==> Key(s[m]) > v
    ensures WithKey(s, v) == []
    decreases |s|
  {
    if |s| > 0 {
      WithKeyNewer(s[1..], v);
    }
  }

  /** Inserting keeps every time's groups in their order, the new group
      ahead of the ones already there: the insertion is stable. */
  lemma InsertKeepsOrderOfEqualKeys(g: Group, s: seq<Group>, v: int)
    ensures WithKey(Insert(g, s), v) == (if Key(g) == v then [g] else []) + WithKey(s, v)
  {
    var p := InsertionPoint(s, Key(g));
    assert s == s[..p] + s[p..];
    WithKeyConcat(s[..p], s[p..], v);
    WithKeyConcat(s[..p] + [g], s[p..], v);
    WithKeyConcat(s[..p], [g], v);
    assert WithKey([g], v) == (if Key(g) == v then [g] else []) + WithKey([], v);
    if Key(g) == v {
      WithKeyNewer(s[..p], v);
    }
  }

  lemma {:induction false} WithKeyMembers(s: seq<Group>, v: int, g: Group)
    ensures g in WithKey(s, v) <==> g in s && Key(g) == v
    decreases |s|
  {
    if |s| > 0 {
      WithKeyMembers(s[1..], v, g);
      assert s == [s[0]] + s[1..];
    }
  }

  lemma HeadHasItsKey(s: seq<Group>)
    ensures |s| > 0 ==> WithKey(s, Key(s[0])) != []
  {
  }

  /** Dropping the head drops it from its time's groups. */
  lemma WithKeyTail(s: seq<Group>, v: int)
    requires |s| > 0
    ensures WithKey(s[1..], v) == if Key(s[0]) == v then WithKey(s, v)[1..] else WithKey(s, v)
  {
  }

  /** Two newest-first lists with the same groups of each time start with
      the same group: both heads carry the greatest time, and each is the
      first group of that time. */
  lemma SameHeads(a: seq<Group>, b: seq<Group>)
    requires SortedByLatest(a) && SortedByLatest(b) && |a| > 0 && |b| > 0
    requires forall v :: WithKey(a, v) == WithKey(b, v)
    ensures a[0] == b[0]
  {
    var ka, kb := Key(a[0]), Key(b[0]);
    assert WithKey(a, ka) == WithKey(b, ka) && WithKey(a, kb) == WithKey(b, kb);
    WithKeyMembers(a, ka, a[0]);
    WithKeyMembers(b, ka, a[0]);
    WithKeyMembers(b, kb, b[0]);
    WithKeyMembers(a, kb, b[0]);
    var i :| 0 <= i < |b| && b[i] == a[0];
    var j :| 0 <= j < |a| && a[j] == b[0];
    assert ka <= kb && kb <= ka;
    assert WithKey(a, ka)[0] == a[0];
    assert WithKey(b, kb)[0] == b[0];
  }

  /** With a consistent comparator a stable sort has one possible result:
      two newest-first lists that hold the same groups of each time in the
      same order are equal. So the insertion sort above is what the
      runtime's sort returns. */
  lemma {:induction false} StableSortIsUnique(a: seq<Group>, b: seq<Group>)
    requires SortedByLatest(a) && SortedByLatest(b)
    requires forall v :: WithKey(a, v) == WithKey(b, v)
    ensures a == b
    decreases |a| + |b|
  {
    HeadHasItsKey(a);
    HeadHasItsKey(b);
    if |a| == 0 || |b| == 0 {
      assert |a| == 0 && |b| == 0;
      return;
    }
    SameHeads(a, b);
    forall v ensures WithKey(a[1..], v) == WithKey(b[1..], v) {
      WithKeyTail(a, v);
      WithKeyTail(b, v);
    }
    assert SortedByLatest(a[1..]) && SortedByLatest(b[1..]) by {
      assert forall i :: 0 <= i < |a| - 1 ==> a[1..][i] == a[i + 1];
      assert forall i :: 0 <= i < |b| - 1 ==> b[1..][i] == b[i + 1];
    }
    StableSortIsUnique(a[1..], b[1..]);
    assert a == [a[0]] + a[1..] && b == [b[0]] + b[1..];
  }

  predicate DistinctIds(gs: seq<Group>) {
    forall i, j :: 0 <= i < j < |gs| ==> gs[i].groupId != gs[j].groupId
  }

  /** The groups before sorting: one per group id in order of first
      appearance, each holding that id's assets, headed by its newest. */
  lemma RecordGroups(xs: seq<Asset>)
    ensures var gs := ToGroups(Collect(xs));
      && |gs| == |GroupIds(xs)|
      && DistinctIds(gs)
      && forall n :: 0 <= n < |gs| ==>
           && gs[n].groupId == GroupIds(xs)[n]
           && gs[n].items == WithGroup(xs, gs[n].groupId)
           && |gs[n].items| > 0
           && gs[n].latestAt == Some(gs[n].items[0].createdAt)
  {
    var es := Collect(xs);
    var gs := ToGroups(es);
    forall n | 0 <= n < |gs|
      ensures && gs[n].groupId == GroupIds(xs)[n]
              && gs[n].items == WithGroup(xs, gs[n].groupId)
              && |gs[n].items| > 0
              && gs[n].latestAt == Some(gs[n].items[0].createdAt)
    {
      RecordGroupAt(xs, es, n);
    }
  }

  /** The group built from the record's `n`th entry. */
  lemma RecordGroupAt(xs: seq<Asset>, es: seq<Entry>, n: nat)
    requires RecordFor(es, xs) && n < |es|
    ensures var g := ToGroup(es[n]);
      && g.groupId == GroupIds(xs)[n]
      && g.items == WithGroup(xs, g.groupId)
      && |g.items| > 0
      && g.latestAt == Some(g.items[0].createdAt)
  {
    var k := GroupIds(xs)[n];
    assert es[n] == Entry(k, WithGroup(xs, k));
    GroupIdsAreTheOccurringIds(xs, k);
  }

  /** A value at two positions occurs at least twice. */
  lemma TwicePresent(r: seq<Group>, i: nat, j: nat)
    requires i < j < |r| && r[i] == r[j]
    ensures multiset(r)[r[i]] >= 2
  {
    assert r == r[..j] + [r[j]] + r[j + 1..];
    assert r[i] in r[..j];
    assert multiset(r) == multiset(r[..j]) + multiset{r[j]} + multiset(r[j + 1..]);
  }

  /** In a list with distinct ids each group occurs once. */
  lemma DistinctCount(gs: seq<Group>, m: nat)
    requires m < |gs|
    requires DistinctIds(gs)
    ensures multiset(gs)[gs[m]] == 1
  {
    assert gs == gs[..m] + [gs[m]] + gs[m + 1..];
    assert gs[m] !in gs[..m];
    assert gs[m] !in gs[m + 1..];
    assert multiset(gs) == multiset(gs[..m]) + multiset{gs[m]} + multiset(gs[m + 1..]);
  }

  /** Reordering keeps the ids distinct. */
  lemma PermutationKeepsDistinctIds(gs: seq<Group>, r: seq<Group>)
    requires multiset(r) == multiset(gs)
    requires DistinctIds(gs)
    ensures DistinctIds(r)
  {
    forall i, j | 0 <= i < j < |r| ensures r[i].groupId != r[j].groupId {
      assert r[i] in multiset(gs) && r[j] in multiset(gs);
      var m :| 0 <= m < |gs| && gs[m] == r[i];
      var n :| 0 <= n < |gs| && gs[n] == r[j];
      if r[i].groupId == r[j].groupId {
        assert m == n;
        TwicePresent(r, i, j);
        DistinctCount(gs, m);
      }
    }
  }

  /** Each returned group holds exactly the assets of its id, in input
      order, and `latestAt` is its first item's time. */
  lemma SortedGroupContents(xs: seq<Asset>, g: Group)
    requires g in SortByLatest(ToGroups(Collect(xs)))
    ensures g.items == WithGroup(xs, g.groupId) && |g.items| > 0
    ensures g.latestAt == Some(g.items[0].createdAt)
  {
    var gs := ToGroups(Collect(xs));
    RecordGroups(xs);
    assert g in multiset(SortByLatest(gs));
    assert g in multiset(gs);
  }

  /** Every input asset lies in a returned group with its id. */
  lemma SortedGroupsCover(xs: seq<Asset>, a: Asset)
    requires a in xs
    ensures exists g :: g in SortByLatest(ToGroups(Collect(xs))) && g.groupId == a.groupId && a in g.items
  {
    var gs := ToGroups(Collect(xs));
    var ids := GroupIds(xs);
    RecordGroups(xs);
    var n :| 0 <= n < |ids| && ids[n] == a.groupId;
    assert gs[n] in multiset(gs);
    assert gs[n] in multiset(SortByLatest(gs));
  }

  /** The facts `GroupedAssets` promises, for the sorted record. */
  lemma SortedGroupsSpec(xs: seq<Asset>)
    ensures var r := SortByLatest(ToGroups(Collect(xs)));
      && SortedByLatest(r)
      && |r| == |GroupIds(xs)|
      && DistinctIds(r)
      && (forall g :: g in r ==>
            && g.items == WithGroup(xs, g.groupId)
            && |g.items| > 0
            && g.latestAt == Some(g.items[0].createdAt))
      && (forall a :: a in xs ==> exists g :: g in r && g.groupId == a.groupId && a in g.items)
  {
    var r := SortByLatest(ToGroups(Collect(xs)));
    RecordGroups(xs);
    PermutationKeepsDistinctIds(ToGroups(Collect(xs)), r);
    forall g | g in r
      ensures g.items == WithGroup(xs, g.groupId) && |g.items| > 0
      ensures g.latestAt == Some(g.items[0].createdAt)
    {
      SortedGroupContents(xs, g);
    }
    forall a | a in xs
      ensures exists g :: g in r && g.groupId == a.groupId && a in g.items
    {
      SortedGroupsCover(xs, a);
    }
  }

  // ---------------------------------------------------------------------
  // Input in database order
  // ---------------------------------------------------------------------

  /** `orderBy(desc(assets.createdAt))`. */
  predicate NewestFirst(xs: seq<Asset>) {
    forall i, j :: 0 <= i < j < |xs| ==> xs[i].createdAt >= xs[j].createdAt
  }

  /** A group keeps the input's order, so its items are newest first too. */
  lemma {:induction false} WithGroupNewestFirst(xs: seq<Asset>, k: string)
    requires NewestFirst(xs)
    ensures NewestFirst(WithGroup(xs, k))
    decreases |xs|
  {
    if |xs| > 0 {
      var p, last := xs[..|xs| - 1], xs[|xs| - 1];
      assert NewestFirst(p);
      WithGroupNewestFirst(p, k);
      var w := WithGroup(p, k);
      forall a | a in w ensures a.createdAt >= last.createdAt {
        var i :| 0 <= i < |p| && p[i] == a;
        assert xs[i] == a;
      }
    }
  }

  /** The time of the first asset of group `k`, or 0 when there is none. */
  ghost function FirstTime(xs: seq<Asset>, k: string): int {
    if WithGroup(xs, k) != [] then WithGroup(xs, k)[0].createdAt else 0
  }

  /** Appending an older asset does not change a present group's first
      time, which is at least the new asset's. */
  lemma FirstTimeStep(xs: seq<Asset>, k: string)
    requires |xs| > 0 && NewestFirst(xs)
    requires k in GroupIds(xs[..|xs| - 1])
    ensures FirstTime(xs, k) == FirstTime(xs[..|xs| - 1], k) >= xs[|xs| - 1].createdAt
  {
    var p := xs[..|xs| - 1];
    GroupIdsAreTheOccurringIds(p, k);
    var w := WithGroup(p, k);
    assert WithGroup(xs, k)[0] == w[0];
    var i :| 0 <= i < |p| && p[i] == w[0];
    assert xs[i] == w[0];
  }

  /** Newest-first input lists the groups by first appearance, newest
      first. */
  lemma {:induction false} FirstTimesDescend(xs: seq<Asset>)
    requires NewestFirst(xs)
    ensures forall m, n :: 0 <= m < n < |GroupIds(xs)| ==>
      FirstTime(xs, GroupIds(xs)[m]) >= FirstTime(xs, GroupIds(xs)[n])
    decreases |xs|
  {
    if |xs| > 0 {
      var p, last := xs[..|xs| - 1], xs[|xs| - 1];
      var ids := GroupIds(p);
      var all := GroupIds(xs);
      assert NewestFirst(p);
      FirstTimesDescend(p);
      if last.groupId !in ids {
        GroupIdsAreTheOccurringIds(p, last.groupId);
        assert all == ids + [last.groupId];
      } else {
        assert all == ids;
      }
      forall m, n | 0 <= m < n < |all| ensures FirstTime(xs, all[m]) >= FirstTime(xs, all[n]) {
        FirstTimeStep(xs, all[m]);
        if n < |ids| {
          FirstTimeStep(xs, all[n]);
        } else {
          assert FirstTime(xs, all[n]) == last.createdAt;
        }
      }
    }
  }

  /** For rows in database order the groups come out of the record
      already newest first. */
  lemma RecordAlreadySorted(xs: seq<Asset>)
    requires NewestFirst(xs)
    ensures SortedByLatest(ToGroups(Collect(xs)))
  {
    var gs := ToGroups(Collect(xs));
    var ids := GroupIds(xs);
    RecordGroups(xs);
    FirstTimesDescend(xs);
    forall n | 0 <= n < |gs| ensures Key(gs[n]) == FirstTime(xs, ids[n]) {
    }
  }

  /** Sorting a list that is already newest first changes nothing. */
  lemma SortedIsFixed(gs: seq<Group>)
    requires SortedByLatest(gs)
    ensures SortByLatest(gs) == gs
  {
    StableSortIsUnique(SortByLatest(gs), gs);
  }

  /** For rows in database order a group's items are newest first, headed
      by the group's time. */
  lemma GroupItemsNewestFirst(xs: seq<Asset>, g: Group)
    requires NewestFirst(xs) && g in GroupedAssets(xs)
    ensures NewestFirst(g.items)
    ensures forall a :: a in g.items ==> a.createdAt <= Key(g)
  {
    WithGroupNewestFirst(xs, g.groupId);
    HeadIsNewest(g.items);
  }

  /** In a newest-first list the head is the newest. */
  lemma HeadIsNewest(items: seq<Asset>)
    requires NewestFirst(items) && |items| > 0
    ensures forall a :: a in items ==> a.createdAt <= items[0].createdAt
  {
    forall a | a in items ensures a.createdAt <= items[0].createdAt {
      var i :| 0 <= i < |items| && items[i] == a;
    }
  }

  /** For rows in database order the sort changes nothing, each group's
      items are newest first, and `latestAt` is the newest time in the
      group: the assumption in the source comment holds. */
  lemma DatabaseOrderIsKept(xs: seq<Asset>)
    requires NewestFirst(xs)
    ensures GroupedAssets(xs) == ToGroups(Collect(xs))
    ensures forall g :: g in GroupedAssets(xs) ==>
      && NewestFirst(g.items)
      && forall a :: a in g.items ==> a.createdAt <= Key(g)
  {
    var gs := ToGroups(Collect(xs));
    RecordAlreadySorted(xs);
    SortedIsFixed(gs);
    forall g | g in GroupedAssets(xs)
      ensures NewestFirst(g.items) && forall a :: a in g.items ==> a.createdAt <= Key(g)
    {
      GroupItemsNewestFirst(xs, g);
    }
  }
}
