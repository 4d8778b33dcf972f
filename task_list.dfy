/** The task list (src/app/obj/tasks/TaksList.ts): top-level tasks and task directories, shown
    as rows where a directory row is followed by one row per child task. */
module TaskLists {
  import opened Wrappers
  import opened TaskStates
  import opened Tasks

  datatype Entry = TaskEntry(task: Task) | DirEntry(dir: TaskDirectory)

  function EntryId(e: Entry): int {
    match e
    case TaskEntry(t) => t.id
    case DirEntry(d) => d.id
  }

  datatype ChangeKind = Added | Removed | Changed

  /** `EntryChangeEvent`, as emitted on `entryChanged`. */
  datatype EntryChangeEvent = EntryChangeEvent(state: ChangeKind, saveToDB: bool, entry: Entry)

  /** A top-level entry together with the children it has at the time. */
  datatype Slot = TaskSlot(task: Task) | DirSlot(dir: TaskDirectory, children: seq<Task>)

  function DirsOf(es: seq<Entry>): set<TaskDirectory> {
    set e | e in es && e.DirEntry? :: e.dir
  }

  function SlotOf(e: Entry): Slot
    reads if e.DirEntry? then {e.dir} else {}
  {
    match e
    case TaskEntry(t) => TaskSlot(t)
    case DirEntry(d) => DirSlot(d, d.entries)
  }

  /** The entries with their directories' current children. */
  function SnapshotOf(es: seq<Entry>): (r: seq<Slot>)
    reads DirsOf(es)
    ensures |r| == |es|
    ensures forall i :: 0 <= i < |es| ==> r[i] == SlotOf(es[i])
  {
    if es == [] then []
    else
      assert DirsOf(es[..|es| - 1]) <= DirsOf(es);
      SnapshotOf(es[..|es| - 1]) + [SlotOf(es[|es| - 1])]
  }

  // ---------------------------------------------------------------------------
  // The row view

  function TaskEntries(ts: seq<Task>): seq<Entry> {
    seq(|ts|, i requires 0 <= i < |ts| => TaskEntry(ts[i]))
  }

  /** The rows one top-level entry occupies. */
  function Rows(s: Slot): seq<Entry> {
    match s
    case TaskSlot(t) => [TaskEntry(t)]
    case DirSlot(d, cs) => [DirEntry(d)] + TaskEntries(cs)
  }

  /** A directory's rows: its own, then one per child. */
  lemma DirRows(d: TaskDirectory, cs: seq<Task>)
    ensures |Rows(DirSlot(d, cs))| == |cs| + 1 && Rows(DirSlot(d, cs))[0] == DirEntry(d)
    ensures forall k :: 1 <= k <= |cs| ==> Rows(DirSlot(d, cs))[k] == TaskEntry(cs[k - 1])
  {
  }

  /** All rows, in display order. */
  function Flat(ss: seq<Slot>): seq<Entry> {
    if ss == [] then [] else Flat(ss[..|ss| - 1]) + Rows(ss[|ss| - 1])
  }

  function RowCount(s: Slot): nat {
    match s
    case TaskSlot(_) => 1
    case DirSlot(_, cs) => |cs| + 1
  }

  /** What the `length` getter counts: one per task, one per directory plus its children. */
  function SlotsLength(ss: seq<Slot>): nat {
    if ss == [] then 0 else SlotsLength(ss[..|ss| - 1]) + RowCount(ss[|ss| - 1])
  }

  /** `length` is the number of rows. */
  lemma {:induction false} LengthCountsRows(ss: seq<Slot>)
    ensures SlotsLength(ss) == |Flat(ss)|
  {
    if ss != [] {
      LengthCountsRows(ss[..|ss| - 1]);
    }
  }

  function TasksOf(s: Slot): seq<Task> {
    match s
    case TaskSlot(t) => [t]
    case DirSlot(_, cs) => cs
  }

  /** getAllTasks: the top-level tasks and the directories' children, in order. */
  function AllTasks(ss: seq<Slot>): seq<Task> {
    if ss == [] then [] else AllTasks(ss[..|ss| - 1]) + TasksOf(ss[|ss| - 1])
  }

  /** Every task getAllTasks returns comes from one top-level entry. */
  lemma {:induction false} AllTasksFrom(ss: seq<Slot>, t: Task)
    requires t in AllTasks(ss)
    ensures exists i :: 0 <= i < |ss| && t in TasksOf(ss[i])
  {
    var init := ss[..|ss| - 1];
    if t in AllTasks(init) {
      AllTasksFrom(init, t);
      var i :| 0 <= i < |init| && t in TasksOf(init[i]);
      assert ss[i] == init[i];
    } else {
      assert t in TasksOf(ss[|ss| - 1]);
    }
  }

  /** The tasks getAllTasks returns are exactly those shown as task rows. */
  lemma {:induction false} AllTasksAreTaskRows(ss: seq<Slot>, t: Task)
    ensures t in AllTasks(ss) <==> TaskEntry(t) in Flat(ss)
  {
    if ss != [] {
      AllTasksAreTaskRows(ss[..|ss| - 1], t);
      var s := ss[|ss| - 1];
      if s.DirSlot? {
        var rows := TaskEntries(s.children);
        if t in s.children {
          var k :| 0 <= k < |s.children| && s.children[k] == t;
          assert rows[k] == TaskEntry(t);
        }
        if TaskEntry(t) in rows {
          var k :| 0 <= k < |rows| && rows[k] == TaskEntry(t);
          assert s.children[k] == t;
        }
      }
    }
  }

  /** The first row carrying the id, or -1. */
  function FirstIndexOfId(rows: seq<Entry>, id: int): (r: int)
    ensures -1 <= r < |rows|
  {
    if rows == [] then -1
    else
      var r := FirstIndexOfId(rows[1..], id);
      if EntryId(rows[0]) == id then 0 else if r < 0 then -1 else r + 1
  }

  /** FirstIndexOfId finds the first row with the id, and -1 exactly when there is none. */
  lemma {:induction false} FirstIndexOfIdSpec(rows: seq<Entry>, id: int)
    ensures var r := FirstIndexOfId(rows, id);
      (r >= 0 ==> EntryId(rows[r]) == id && forall k :: 0 <= k < r ==> EntryId(rows[k]) != id)
      && (r == -1 <==> forall k :: 0 <= k < |rows| ==> EntryId(rows[k]) != id)
  {
    if rows != [] {
      FirstIndexOfIdSpec(rows[1..], id);
      assert forall k :: 1 <= k < |rows| ==> rows[k] == rows[1..][k - 1];
    }
  }

  /** getIndexByEntry: the row of the first entry with the id; an absent id yields
      `length - 1`, the index of the last row. */
  function IndexByEntry(ss: seq<Slot>, id: int): (r: int)
    ensures -1 <= r < |Flat(ss)|
    ensures (exists k :: 0 <= k < |Flat(ss)| && EntryId(Flat(ss)[k]) == id) ==>
      0 <= r && EntryId(Flat(ss)[r]) == id && forall k :: 0 <= k < r ==> EntryId(Flat(ss)[k]) != id
    ensures (forall k :: 0 <= k < |Flat(ss)| ==> EntryId(Flat(ss)[k]) != id) ==> r == |Flat(ss)| - 1
  {
    FirstIndexOfIdSpec(Flat(ss), id);
    var k := FirstIndexOfId(Flat(ss), id);
    if k >= 0 then k else |Flat(ss)| - 1
  }

  /** getEntryByIndex: the entry on a row, or null off the rows. */
  function EntryByIndex(ss: seq<Slot>, index: int): (r: Option<Entry>)
    ensures r.Some? <==> 0 <= index < |Flat(ss)|
    ensures r.Some? ==> r.value in Flat(ss)
  {
    if 0 <= index < |Flat(ss)| then Some(Flat(ss)[index]) else None
  }

  /** Looking up the row of an id and then the entry on that row gives an entry with that
      id; an absent id lands on the last row. */
  lemma EntryOfIndex(ss: seq<Slot>, id: int)
    ensures var e := EntryByIndex(ss, IndexByEntry(ss, id));
      if exists k :: 0 <= k < |Flat(ss)| && EntryId(Flat(ss)[k]) == id then e.Some? && EntryId(e.value) == id
      else if Flat(ss) == [] then e.None?
      else e == Some(Flat(ss)[|Flat(ss)| - 1])
  {
    FirstIndexOfIdSpec(Flat(ss), id);
  }

  /** With distinct ids on the rows, the row of a row's entry is that row. */
  lemma IndexOfEntry(ss: seq<Slot>, k: int)
    requires 0 <= k < |Flat(ss)|
    requires forall i, j :: 0 <= i < j < |Flat(ss)| ==> EntryId(Flat(ss)[i]) != EntryId(Flat(ss)[j])
    ensures EntryByIndex(ss, k).Some?
    ensures IndexByEntry(ss, EntryId(EntryByIndex(ss, k).value)) == k
  {
    FirstIndexOfIdSpec(Flat(ss), EntryId(Flat(ss)[k]));
  }

  lemma FirstIndexAppend(a: seq<Entry>, b: seq<Entry>, id: int)
    ensures FirstIndexOfId(a + b, id) ==
      if FirstIndexOfId(a, id) >= 0 then FirstIndexOfId(a, id)
      else if FirstIndexOfId(b, id) == -1 then -1
      else |a| + FirstIndexOfId(b, id)
  {
    FirstIndexOfIdSpec(a, id);
    FirstIndexOfIdSpec(b, id);
    FirstIndexOfIdSpec(a + b, id);
    assert forall k :: 0 <= k < |b| ==> (a + b)[|a| + k] == b[k];
    assert forall k :: 0 <= k < |a| ==> (a + b)[k] == a[k];
  }

  /** The rows of a list are the rows of its first n entries followed by the rest's. */
  lemma {:induction false} FlatSplit(ss: seq<Slot>, n: nat)
    requires n <= |ss|
    ensures Flat(ss) == Flat(ss[..n]) + Flat(ss[n..])
    decreases |ss|
  {
    if n == |ss| {
      assert ss[..n] == ss && ss[n..] == [];
    } else {
      var init, last := ss[..|ss| - 1], ss[|ss| - 1];
      FlatSplit(init, n);
      Slices(ss, n);
      Regroup(Flat(ss[..n]), Flat(init[n..]), Rows(last));
    }
  }

  lemma Slices<T>(s: seq<T>, n: nat)
    requires n < |s|
    ensures s[..|s| - 1][..n] == s[..n]
    ensures s[n..][..|s[n..]| - 1] == s[..|s| - 1][n..] && s[n..][|s[n..]| - 1] == s[|s| - 1]
  {
  }

  lemma Regroup<T>(a: seq<T>, b: seq<T>, c: seq<T>)
    ensures (a + b) + c == a + (b + c)
  {
  }

  /** The rows of the first i + 1 entries. */
  lemma FlatStep(ss: seq<Slot>, i: nat)
    requires i < |ss|
    ensures Flat(ss[..i + 1]) == Flat(ss[..i]) + Rows(ss[i])
  {
    assert ss[..i + 1][..i] == ss[..i];
  }

  /** One entry of getIndexByEntry's scan, when no earlier row has the id: a row of this entry
      carrying it is the answer; otherwise no row up to this entry carries it. */
  lemma IndexStep(ss: seq<Slot>, i: nat, id: int)
    requires i < |ss| && FirstIndexOfId(Flat(ss[..i]), id) == -1
    ensures var off := SlotOffset(ss[i], id);
      (off >= 0 ==> IndexByEntry(ss, id) == |Flat(ss[..i])| + off)
      && (off < 0 ==> FirstIndexOfId(Flat(ss[..i + 1]), id) == -1
                      && |Flat(ss[..i + 1])| == |Flat(ss[..i])| + RowCount(ss[i]))
  {
    SlotOffsetIsFirstRow(ss[i], id);
    FlatStep(ss, i);
    FlatSplit(ss, i + 1);
    FirstIndexAppend(Flat(ss[..i]), Rows(ss[i]), id);
    FirstIndexAppend(Flat(ss[..i + 1]), Flat(ss[i + 1..]), id);
  }

  /** The position of the first child with the id, or the number of children. */
  function FirstChildWithId(cs: seq<Task>, id: int): (j: nat)
    ensures j <= |cs|
    ensures forall k :: 0 <= k < j ==> cs[k].id != id
    ensures j < |cs| ==> cs[j].id == id
  {
    if cs == [] then 0
    else if cs[0].id == id then 0
    else
      var j := FirstChildWithId(cs[1..], id);
      assert forall k :: 1 <= k <= j ==> cs[k] == cs[1..][k - 1];
      j + 1
  }

  /** Within one top-level entry, the row of the id counted from the entry's own row, or -1:
      the entry itself first, then a directory's children in order. */
  function SlotOffset(s: Slot, id: int): int {
    match s
    case TaskSlot(t) => if t.id == id then 0 else -1
    case DirSlot(d, cs) =>
      if d.id == id then 0
      else
        var j := FirstChildWithId(cs, id);
        if j < |cs| then j + 1 else -1
  }

  /** SlotOffset is the first row of the entry carrying the id, and RowCount its number of rows. */
  lemma SlotOffsetIsFirstRow(s: Slot, id: int)
    ensures SlotOffset(s, id) == FirstIndexOfId(Rows(s), id)
    ensures RowCount(s) == |Rows(s)|
  {
    if s.DirSlot? {
      DirRows(s.dir, s.children);
      if s.dir.id != id {
        DirRowsIndex(s.dir, s.children, id, FirstChildWithId(s.children, id));
      }
    }
  }

  /** getIndexByEntry's scan from entry i on, with `result` the row before entry i. */
  function IndexFrom(ss: seq<Slot>, i: nat, id: int, result: int): int
    requires i <= |ss|
    decreases |ss| - i
  {
    if i == |ss| then result
    else
      var off := SlotOffset(ss[i], id);
      if off >= 0 then result + off + 1 else IndexFrom(ss, i + 1, id, result + RowCount(ss[i]))
  }

  /** The entry-by-entry scan finds the row IndexByEntry describes, `result` being the last row
      before entry i. */
  lemma {:induction false} IndexFromIsIndex(ss: seq<Slot>, i: nat, id: int, result: int)
    requires i <= |ss| && FirstIndexOfId(Flat(ss[..i]), id) == -1 && result == |Flat(ss[..i])| - 1
    ensures IndexFrom(ss, i, id, result) == IndexByEntry(ss, id)
    decreases |ss| - i
  {
    if i < |ss| && SlotOffset(ss[i], id) < 0 {
      RowsPassed(ss, i, id);
      IndexFromSkip(ss, i, id, result);
      IndexFromIsIndex(ss, i + 1, id, result + RowCount(ss[i]));
    } else {
      IndexFromStops(ss, i, id, result);
    }
  }

  /** The scan stops past the last entry, on the last row, or at an entry with a row carrying
      the id, on that row. */
  lemma IndexFromStops(ss: seq<Slot>, i: nat, id: int, result: int)
    requires i <= |ss| && FirstIndexOfId(Flat(ss[..i]), id) == -1 && result == |Flat(ss[..i])| - 1
    requires i < |ss| ==> SlotOffset(ss[i], id) >= 0
    ensures IndexFrom(ss, i, id, result) == IndexByEntry(ss, id)
  {
    if i == |ss| {
      assert ss[..i] == ss;
    } else {
      IndexStep(ss, i, id);
    }
  }

  /** An entry without the id adds its rows and no row with the id. */
  lemma RowsPassed(ss: seq<Slot>, i: nat, id: int)
    requires i < |ss| && FirstIndexOfId(Flat(ss[..i]), id) == -1 && SlotOffset(ss[i], id) < 0
    ensures |Flat(ss[..i + 1])| == |Flat(ss[..i])| + RowCount(ss[i])
    ensures FirstIndexOfId(Flat(ss[..i + 1]), id) == -1
  {
    IndexStep(ss, i, id);
  }

  /** The scan passes over an entry without the id, adding its rows to `result`. */
  lemma IndexFromSkip(ss: seq<Slot>, i: nat, id: int, result: int)
    requires i < |ss| && SlotOffset(ss[i], id) < 0
    ensures IndexFrom(ss, i, id, result) == IndexFrom(ss, i + 1, id, result + RowCount(ss[i]))
  {
  }

  /** Row `off` of entry i is the row getEntryByIndex finds at that position. */
  lemma EntryInSlot(ss: seq<Slot>, i: nat, off: nat, index: int)
    requires i < |ss| && off < |Rows(ss[i])| && index == |Flat(ss[..i])| + off
    ensures EntryByIndex(ss, index) == Some(Rows(ss[i])[off])
  {
    var before, rows, after := Flat(ss[..i]), Rows(ss[i]), Flat(ss[i + 1..]);
    FlatStep(ss, i);
    FlatSplit(ss, i + 1);
    Middle(Flat(ss), before, rows, after, off, index);
  }

  lemma Middle<T>(whole: seq<T>, a: seq<T>, b: seq<T>, c: seq<T>, off: nat, index: int)
    requires whole == (a + b) + c && off < |b| && index == |a| + off
    ensures 0 <= index < |whole| && whole[index] == b[off]
  {
  }

  /** A directory whose own id differs: its rows first carry the id at its first such child. */
  lemma DirRowsIndex(d: TaskDirectory, cs: seq<Task>, id: int, j: nat)
    requires d.id != id && j <= |cs| && forall k :: 0 <= k < j ==> cs[k].id != id
    requires j < |cs| ==> cs[j].id == id
    ensures FirstIndexOfId(Rows(DirSlot(d, cs)), id) == if j < |cs| then j + 1 else -1
  {
    var rows := Rows(DirSlot(d, cs));
    DirRows(d, cs);
    FirstIndexOfIdSpec(rows, id);
    assert |rows| == |cs| + 1 && EntryId(rows[0]) != id;
    assert forall k :: 1 <= k < |rows| ==> EntryId(rows[k]) == cs[k - 1].id;
    if j < |cs| {
      assert EntryId(rows[j + 1]) == id;
    }
  }

  /** The first task in the given state (`tasks.find(a => a.state === state)`). */
  function FirstInState(ts: seq<Task>, s: TaskState): (r: Task?)
    reads set t | t in ts
    ensures r != null ==> r in ts && r.state == s
    ensures r == null <==> forall k :: 0 <= k < |ts| ==> ts[k].state != s
    ensures r != null ==> exists k :: 0 <= k < |ts| && ts[k] == r && forall m :: 0 <= m < k ==> ts[m].state != s
  {
    if ts == [] then null
    else if ts[0].state == s then ts[0]
    else
      var r := FirstInState(ts[1..], s);
      assert forall k :: 1 <= k < |ts| ==> ts[k] == ts[1..][k - 1];
      r
  }

  /** The first task with the id (`tasks.find(a => a.id === id)`). */
  function FirstTaskWithId(ts: seq<Task>, id: int): (r: Task?)
    ensures r != null ==> r in ts && r.id == id
    ensures r == null <==> forall k :: 0 <= k < |ts| ==> ts[k].id != id
    ensures r != null ==> exists k :: 0 <= k < |ts| && ts[k] == r && forall m :: 0 <= m < k ==> ts[m].id != id
  {
    if ts == [] then null
    else if ts[0].id == id then ts[0]
    else
      var r := FirstTaskWithId(ts[1..], id);
      assert forall k :: 1 <= k < |ts| ==> ts[k] == ts[1..][k - 1];
      r
  }

  /** Adding a task whose id no task has makes it the one found by that id. */
  lemma FindAfterAdd(ss: seq<Slot>, t: Task)
    requires FirstTaskWithId(AllTasks(ss), t.id) == null
    ensures FirstTaskWithId(AllTasks(ss + [TaskSlot(t)]), t.id) == t
  {
    assert (ss + [TaskSlot(t)])[..|ss|] == ss;
    var all := AllTasks(ss + [TaskSlot(t)]);
    assert all == AllTasks(ss) + [t];
    assert all[|AllTasks(ss)|] == t;
  }

  /** getAllTaskDirectories: the top-level directories, in order. */
  function DirsIn(es: seq<Entry>): (r: seq<TaskDirectory>)
    ensures forall i :: 0 <= i < |r| ==> DirEntry(r[i]) in es
    ensures forall i :: 0 <= i < |es| && es[i].DirEntry? ==> es[i].dir in r
  {
    if es == [] then []
    else
      var rest := DirsIn(es[1..]);
      assert forall x :: x in es[1..] ==> x in es;
      assert forall x :: x in es ==> x == es[0] || x in es[1..];
      if es[0].DirEntry? then [es[0].dir] + rest else rest
  }

  /** An entry of the same kind as `e` with `e`'s id. */
  predicate SameTop(a: Entry, e: Entry) {
    a.TaskEntry? == e.TaskEntry? && EntryId(a) == EntryId(e)
  }

  /** The position of the first top-level entry of `e`'s kind with `e`'s id, or -1. */
  function FirstTop(es: seq<Entry>, e: Entry): (k: int)
    ensures -1 <= k < |es|
    ensures k >= 0 ==> SameTop(es[k], e) && forall m :: 0 <= m < k ==> !SameTop(es[m], e)
    ensures k == -1 <==> forall m :: 0 <= m < |es| ==> !SameTop(es[m], e)
  {
    if es == [] then -1
    else if SameTop(es[0], e) then 0
    else
      var k := FirstTop(es[1..], e);
      assert forall m :: 1 <= m < |es| ==> es[m] == es[1..][m - 1];
      if k < 0 then -1 else k + 1
  }

  /** The splice in removeEntry: the first top-level entry of `e`'s kind with `e`'s id goes;
      nothing changes when there is none. */
  function RemoveTop(es: seq<Entry>, e: Entry): (r: seq<Entry>)
    ensures forall x :: x in r ==> x in es
  {
    var k := FirstTop(es, e);
    if k < 0 then es
    else
      assert forall x :: x in es[..k] + es[k + 1..] ==> x in es;
      es[..k] + es[k + 1..]
  }

  /** When the top-level ids of a kind are distinct, the removed entry is gone afterwards. */
  lemma RemoveTopGone(es: seq<Entry>, e: Entry)
    requires forall i, j :: 0 <= i < j < |es| && SameTop(es[i], e) ==> !SameTop(es[j], e)
    ensures forall x :: x in RemoveTop(es, e) ==> !SameTop(x, e)
    ensures |RemoveTop(es, e)| == if exists x :: x in es && SameTop(x, e) then |es| - 1 else |es|
  {
    var k := FirstTop(es, e);
    if k >= 0 {
      var r := es[..k] + es[k + 1..];
      assert es[k] in es;
      forall x | x in r
        ensures !SameTop(x, e)
      {
        var i :| 0 <= i < |r| && r[i] == x;
        if i < k {
          assert r[i] == es[i];
        } else {
          assert r[i] == es[i + 1];
        }
      }
    } else {
      forall x | x in es
        ensures !SameTop(x, e)
      {
        var i :| 0 <= i < |es| && es[i] == x;
      }
    }
  }

  // ---------------------------------------------------------------------------
  // The list

  class TaskList {
    var entries: seq<Entry>
    /** The `entryChanged` subject, as the log of what it has emitted. */
    var events: seq<EntryChangeEvent>

    constructor ()
      ensures entries == [] && events == []
    {
      entries := [];
      events := [];
    }

    function Snapshot(): seq<Slot>
      reads this, DirsOf(entries)
    {
      SnapshotOf(entries)
    }

    /** The tasks of the list are objects of the heap: a caller may rely on them keeping their
        fields across calls that modify other objects. */
    lemma TasksAllocated()
      ensures forall t :: t in AllTasks(Snapshot()) ==> allocated(t)
    {
      var ss := Snapshot();
      forall t | t in AllTasks(ss)
        ensures allocated(t)
      {
        AllTasksFrom(ss, t);
        var i :| 0 <= i < |entries| && t in TasksOf(ss[i]);
        assert ss[i] == SlotOf(entries[i]);
      }
    }

    /** The `length` getter. */
    method Length() returns (n: int)
      ensures n == SlotsLength(Snapshot())
    {
      n := 0;
      var i := 0;
      while i < |entries|
        invariant 0 <= i <= |entries|
        invariant n == SlotsLength(Snapshot()[..i])
      {
        assert Snapshot()[..i + 1][..i] == Snapshot()[..i];
        if entries[i].TaskEntry? {
          n := n + 1;
        } else {
          n := n + |entries[i].dir.entries| + 1;
        }
        i := i + 1;
      }
      assert Snapshot()[..i] == Snapshot();
    }

    /** getAllTasks */
    method GetAllTasks() returns (r: seq<Task>)
      ensures r == AllTasks(Snapshot())
    {
      r := [];
      var i := 0;
      while i < |entries|
        invariant 0 <= i <= |entries|
        invariant r == AllTasks(Snapshot()[..i])
      {
        assert Snapshot()[..i + 1][..i] == Snapshot()[..i];
        if entries[i].TaskEntry? {
          r := r + [entries[i].task];
        } else {
          r := r + entries[i].dir.entries;
        }
        i := i + 1;
      }
      assert Snapshot()[..i] == Snapshot();
    }

    /** getIndexByEntry */
    method GetIndexByEntry(selected: Entry) returns (r: int)
      ensures r == IndexByEntry(Snapshot(), EntryId(selected))
    {
      r := ScanIndex(EntryId(selected));
      assert Snapshot()[..0] == [];
      IndexFromIsIndex(Snapshot(), 0, EntryId(selected), -1);
    }

    /** The loop of getIndexByEntry, entry by entry. */
    method ScanIndex(id: int) returns (r: int)
      ensures r == IndexFrom(Snapshot(), 0, id, -1)
    {
      ghost var ss := Snapshot();
      var result := -1;
      for i := 0 to |entries|
        invariant ss == Snapshot()
        invariant IndexFrom(ss, i, id, result) == IndexFrom(ss, 0, id, -1)
      {
        if entries[i].TaskEntry? {
          assert ss[i] == TaskSlot(entries[i].task);
          if entries[i].task.id == id {
            return result + 1;
          }
        } else {
          var d := entries[i].dir;
          var children := d.entries;
          assert ss[i] == DirSlot(d, children);
          if d.id != id {
            var j := 0;
            while j < |children| && children[j].id != id
              invariant 0 <= j <= FirstChildWithId(children, id)
            {
              j := j + 1;
            }
            if j < |children| {
              return result + j + 2;
            }
            result := result + |children|;
          } else {
            return result + 1;
          }
        }
        result := result + 1;
      }
      return result;
    }

    /** getEntryByIndex */
    method GetEntryByIndex(index: int) returns (r: Option<Entry>)
      ensures r == EntryByIndex(Snapshot(), index)
    {
      ghost var ss := Snapshot();
      var counter := -1;
      var i := 0;
      while i < |entries|
        invariant 0 <= i <= |entries|
        invariant counter == |Flat(ss[..i])| - 1
        invariant counter < index || index < 0
        invariant ss == Snapshot()
      {
        FlatStep(ss, i);
        counter := counter + 1;
        if entries[i].TaskEntry? {
          if counter == index {
            EntryInSlot(ss, i, 0, index);
            return Some(entries[i]);
          }
        } else {
          var d := entries[i].dir;
          assert ss[i] == DirSlot(d, d.entries);
          if index != counter {
            var j := 0;
            while j < |d.entries|
              invariant 0 <= j <= |d.entries|
              invariant counter + j < index || index < 0
            {
              if counter + j + 1 == index {
                EntryInSlot(ss, i, j + 1, index);
                return Some(TaskEntry(d.entries[j]));
              }
              j := j + 1;
            }
            counter := counter + |d.entries|;
          } else {
            EntryInSlot(ss, i, 0, index);
            return Some(DirEntry(d));
          }
        }
        i := i + 1;
      }
      assert ss[..i] == ss;
      return None;
    }

    /** findTaskByState */
    method FindTaskByState(s: TaskState) returns (r: Task?)
      ensures r == FirstInState(AllTasks(Snapshot()), s)
    {
      var tasks := GetAllTasks();
      var i := 0;
      while i < |tasks|
        invariant 0 <= i <= |tasks|
        invariant FirstInState(tasks, s) == FirstInState(tasks[i..], s)
      {
        assert tasks[i..][1..] == tasks[i + 1..];
        if tasks[i].state == s {
          return tasks[i];
        }
        i := i + 1;
      }
      return null;
    }

    /** findEntryById: searches the tasks only, so a directory is never found by its id. */
    method FindEntryById(id: int) returns (r: Task?)
      ensures r == FirstTaskWithId(AllTasks(Snapshot()), id)
    {
      var tasks := GetAllTasks();
      var i := 0;
      while i < |tasks|
        invariant 0 <= i <= |tasks|
        invariant FirstTaskWithId(tasks, id) == FirstTaskWithId(tasks[i..], id)
      {
        assert tasks[i..][1..] == tasks[i + 1..];
        if tasks[i].id == id {
          return tasks[i];
        }
        i := i + 1;
      }
      return null;
    }

    /** getAllTaskDirectories */
    method GetAllTaskDirectories() returns (r: seq<TaskDirectory>)
      ensures r == DirsIn(entries)
    {
      r := [];
      var i := |entries|;
      while i > 0
        invariant 0 <= i <= |entries|
        invariant r == DirsIn(entries[i..])
      {
        i := i - 1;
        assert entries[i..][1..] == entries[i + 1..];
        if entries[i].DirEntry? {
          r := [entries[i].dir] + r;
        }
      }
    }

    /** addEntry: appended and announced unless a task with the id is already listed. */
    method AddEntry(e: Entry, saveToDB: bool) returns (accepted: bool)
      modifies this
      ensures accepted <==> FirstTaskWithId(AllTasks(old(Snapshot())), EntryId(e)) == null
      ensures entries == old(entries) + (if accepted then [e] else [])
      ensures events == old(events) + (if accepted then [EntryChangeEvent(Added, saveToDB, e)] else [])
    {
      var found := FindEntryById(EntryId(e));
      assert found == FirstTaskWithId(AllTasks(Snapshot()), EntryId(e));
      assert Snapshot() == old(Snapshot());
      accepted := found == null;
      if accepted {
        entries := entries + [e];
        events := events + [EntryChangeEvent(Added, saveToDB, e)];
      }
    }

    /** The branches of removeEntry for a task outside any directory and for a directory:
        splice it out of the top level if there, and announce the removal either way. */
    method RemoveTopLevel(e: Entry, saveToDB: bool)
      modifies this
      ensures entries == RemoveTop(old(entries), e)
      ensures events == old(events) + [EntryChangeEvent(Removed, saveToDB, e)]
    {
      entries := RemoveTop(entries, e);
      events := events + [EntryChangeEvent(Removed, saveToDB, e)];
    }

    /** What cleanup does to a directory with the given children: an empty one is removed; the
        only child is moved to the top level (removal announced, directory removed, then
        re-added at the end); two or more children leave everything as it was. */
    ghost predicate CleanupOutcome(before: seq<Entry>, evBefore: seq<EntryChangeEvent>, d: TaskDirectory,
                                   children: seq<Task>, saveToDB: bool)
      reads this, DirsOf(before), set c | c in children
    {
      if |children| == 0 then
        entries == RemoveTop(before, DirEntry(d))
        && events == evBefore + [EntryChangeEvent(Removed, saveToDB, DirEntry(d))]
      else if |children| == 1 then
        var c := children[0];
        var mid := RemoveTop(RemoveTop(before, TaskEntry(c)), DirEntry(d));
        assert DirsOf(mid) <= DirsOf(before);
        var added := FirstTaskWithId(AllTasks(SnapshotOf(mid)), c.id) == null;
        c.directory == null
        && entries == mid + (if added then [TaskEntry(c)] else [])
        && events == evBefore + [EntryChangeEvent(Removed, saveToDB, TaskEntry(c))]
                              + [EntryChangeEvent(Removed, saveToDB, DirEntry(d))]
                              + (if added then [EntryChangeEvent(Added, saveToDB, TaskEntry(c))] else [])
      else
        entries == before && events == evBefore
    }

    /** cleanup of a directory (the promise chain run to its end). */
    method CleanupDir(d: TaskDirectory, saveToDB: bool)
      modifies this, set c | c in d.entries
      ensures CleanupOutcome(old(entries), old(events), d, old(d.entries), saveToDB)
    {
      if |d.entries| == 0 {
        RemoveTopLevel(DirEntry(d), saveToDB);
      } else if |d.entries| == 1 {
        var c := d.entries[0];
        c.directory := null;
        RemoveTopLevel(TaskEntry(c), saveToDB);
        RemoveTopLevel(DirEntry(d), saveToDB);
        ghost var mid := entries;
        ghost var snapshot := SnapshotOf(mid);
        ghost var added := FirstTaskWithId(AllTasks(snapshot), c.id) == null;
        label Removed:
        var accepted := AddEntry(TaskEntry(c), saveToDB);
        assert accepted == added;
        assert forall x :: x in DirsOf(mid) ==> unchanged@Removed(x);
        assert SnapshotOf(mid) == snapshot;
        assert old(d.entries) == [c] && c.directory == null;
      }
    }

    /** cleanup: only directories are cleaned up. */
    method Cleanup(e: Option<Entry>, saveToDB: bool)
      modifies this, if e.Some? && e.value.DirEntry? then set c | c in e.value.dir.entries else {}
      ensures e.Some? && e.value.DirEntry? ==>
        CleanupOutcome(old(entries), old(events), e.value.dir, old(e.value.dir.entries), saveToDB)
      ensures !(e.Some? && e.value.DirEntry?) ==> entries == old(entries) && events == old(events)
    {
      if e.Some? && e.value.DirEntry? {
        CleanupDir(e.value.dir, saveToDB);
      }
    }

    /** removeEntry: nothing for null; a task inside a directory is removed from it and the
        directory is cleaned up; anything else is removed from the top level. */
    method RemoveEntry(e: Option<Entry>, saveToDB: bool)
      modifies this
      modifies if e.Some? && e.value.TaskEntry? && e.value.task.directory != null
        then {e.value.task.directory} else {}
      modifies if e.Some? && e.value.TaskEntry? && e.value.task.directory != null
        then set c | c in e.value.task.directory.entries else {}
      ensures e.None? ==> entries == old(entries) && events == old(events)
      ensures e.Some? && e.value.TaskEntry? && old(e.value.task.directory) != null ==>
        var d := old(e.value.task.directory);
        d.entries == RemoveFirstById(old(d.entries), e.value.task.id)
        && CleanupOutcome(old(entries), old(events), d, d.entries, saveToDB)
      ensures e.Some? && !(e.value.TaskEntry? && old(e.value.task.directory) != null) ==>
        entries == RemoveTop(old(entries), e.value)
        && events == old(events) + [EntryChangeEvent(Removed, saveToDB, e.value)]
    {
      if e.None? {
        return;
      }
      var entry := e.value;
      if entry.TaskEntry? && entry.task.directory != null {
        var d := entry.task.directory;
        d.RemoveTask(entry.task);
        CleanupDir(d, saveToDB);
      } else {
        RemoveTopLevel(entry, saveToDB);
      }
    }
  }
}
