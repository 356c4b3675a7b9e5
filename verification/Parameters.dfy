/**
 The table of a device's parameters, and how those that are non-volatile reach storage: setting one
 stages it, and a later commit stores it.
 */
module Parameters {
  import opened Bytes

  datatype Kind = Null | Dynamic | NonVolatile | Static | Staged

  /**
   A slot of the table. It is unused if its PID is 0; the rest of an unused slot is arbitrary. `cell` is
   the address of the data.
   */
  datatype Entry = Entry(pid: Word, size: nat, cell: Option<nat>, kind: Kind)

  /** A parameter that a commit took but did not store yet. */
  datatype Taken = Taken(pid: Word, cell: nat)

  /**
   The table, with the memory that holds data, by address, and the storage. `touched` is what was ever
   set, and `lost` what was not stored when it was last tried.
   */
  datatype Table = Table(
    entries: seq<Entry>,
    staged: int,
    heap: seq<seq<Byte>>,
    nvs: map<Word, seq<Byte>>,
    taken: multiset<Taken>,
    touched: set<Word>,
    lost: set<Word>
  )

  // ---------- lookups ----------

  function Find(entries: seq<Entry>, pid: Word, i: nat): (r: Option<nat>)
    requires i <= |entries|
    ensures r.Some? ==> i <= r.value < |entries| && entries[r.value].pid == pid
    ensures r.None? ==> forall j :: i <= j < |entries| ==> entries[j].pid != pid
    decreases |entries| - i
  {
    if i == |entries| then None else if entries[i].pid == pid then Some(i) else Find(entries, pid, i + 1)
  }

  /** The slot of a parameter, or else the first unused one. */
  function FindSlot(entries: seq<Entry>, pid: Word, i: nat): (r: Option<nat>)
    requires i <= |entries|
    ensures r.Some? ==> i <= r.value < |entries| && (entries[r.value].pid == pid || entries[r.value].pid == 0)
    ensures forall j :: i <= j < (if r.Some? then r.value else |entries|) ==>
            entries[j].pid != pid && entries[j].pid != 0
    decreases |entries| - i
  {
    if i == |entries| then None
    else if entries[i].pid == pid || entries[i].pid == 0 then Some(i)
    else FindSlot(entries, pid, i + 1)
  }

  /** The first slot of the staged kind, used or not. */
  function FindStaged(entries: seq<Entry>, i: nat): (r: Option<nat>)
    requires i <= |entries|
    ensures r.Some? ==> i <= r.value < |entries| && entries[r.value].kind == Staged
    ensures forall j :: i <= j < (if r.Some? then r.value else |entries|) ==> entries[j].kind != Staged
    decreases |entries| - i
  {
    if i == |entries| then None else if entries[i].kind == Staged then Some(i) else FindStaged(entries, i + 1)
  }

  // ---------- operations ----------

  /** Is there memory of this size at the address, if there is one? */
  predicate IsMemory(t: Table, cell: Option<nat>, size: nat) {
    cell.Some? ==> cell.value < |t.heap| && size <= |t.heap[cell.value]|
  }

  /** Adds a parameter, unless it exists. `mallocSucceeds` says if memory can be had. */
  function Add(t: Table, pid: Word, kind: Kind, data: Option<nat>, size: nat, mallocSucceeds: bool): (Table, bool)
    requires pid > 0 && IsMemory(t, data, size)
  {
    match FindSlot(t.entries, pid, 0)
    case None => (t, false)
    case Some(i) =>
      if t.entries[i].pid == pid then (t, true)
      else
        match kind
        case Dynamic => AddOwned(t, i, pid, kind, data, size, mallocSucceeds)
        case NonVolatile => AddOwned(t, i, pid, kind, data, size, mallocSucceeds)
        case Static => (t.(entries := t.entries[i := Entry(pid, size, data, kind)]), true)
        case Null => (t.(entries := t.entries[i := Entry(pid, size, None, kind)]), true)
        case Staged => (t, false)
  }

  /** Adds a parameter that has its own copy of the data. */
  function AddOwned(
      t: Table, i: nat, pid: Word, kind: Kind, data: Option<nat>, size: nat, mallocSucceeds: bool): (Table, bool)
    requires i < |t.entries| && IsMemory(t, data, size)
  {
    if !mallocSucceeds then (t, false)
    else
      var bytes := if data.Some? then t.heap[data.value][..size] else seq(size, _ => 0);
      (t.(entries := t.entries[i := Entry(pid, size, Some(|t.heap|), kind)], heap := t.heap + [bytes]), true)
  }

  /** Does the parameter, if there is one, have data? */
  predicate HasData(t: Table, pid: Word) {
    var at := Find(t.entries, pid, 0);
    at.Some? ==> t.entries[at.value].cell.Some? && IsMemory(t, t.entries[at.value].cell, t.entries[at.value].size)
  }

  /** Sets a parameter, or as much of it as there is room for. A non-volatile one is staged. Returns the size. */
  function Set(t: Table, pid: Word, source: seq<Byte>): (Table, nat)
    requires pid > 0 && HasData(t, pid)
  {
    var at := Find(t.entries, pid, 0);
    if source == [] || at == None then (t, 0)
    else
      var e := t.entries[at.value];
      var n := Min(|source|, e.size);
      var cell := t.heap[e.cell.value];
      var u := t.(heap := t.heap[e.cell.value := source[..n] + cell[n..]], touched := t.touched + {pid});
      (if e.kind == NonVolatile then u.(entries := u.entries[at.value := e.(kind := Staged)], staged := u.staged + 1)
          else u, n)
  }

  /** The first bytes of a parameter, `size` at most. */
  function Copy(t: Table, pid: Word, size: nat): seq<Byte>
    requires pid > 0 && HasData(t, pid)
  {
    match Find(t.entries, pid, 0)
    case None => []
    case Some(i) => t.heap[t.entries[i].cell.value][..Min(size, t.entries[i].size)]
  }

  /** The first half of a commit: takes a staged parameter. Returns its PID; 0 if there is none. */
  function Take(t: Table): (Table, Word) {
    var at := FindStaged(t.entries, 0);
    if t.staged == 0 || at == None then (t, 0)
    else
      var e := t.entries[at.value];
      var u := t.(entries := t.entries[at.value := e.(kind := NonVolatile)], staged := t.staged - 1);
      (if e.pid > 0 && e.cell.Some? then u.(taken := u.taken + multiset{Taken(e.pid, e.cell.value)}) else u, e.pid)
  }

  /** The second half, outside of the critical section: stores what was taken, as it is by now. Storage may fail. */
  function Store(t: Table, p: Taken, succeeds: bool): Table
    requires p in t.taken && IsMemory(t, Some(p.cell), SizeOf(t, p.pid))
  {
    var u := t.(taken := t.taken - multiset{p});
    if SizeOf(t, p.pid) == 0 then u
    else if succeeds then u.(nvs := u.nvs[p.pid := u.heap[p.cell][..SizeOf(t, p.pid)]], lost := u.lost - {p.pid})
    else u.(lost := u.lost + {p.pid})
  }

  function SizeOf(t: Table, pid: Word): nat {
    match Find(t.entries, pid, 0)
    case None => 0
    case Some(i) => t.entries[i].size
  }

  // ---------- what every run keeps ----------

  /** The slots in use come first, and no two of them have the same PID. */
  predicate Packed(entries: seq<Entry>) {
    forall i, j :: 0 <= i < j < |entries| && entries[j].pid != 0 ==>
      entries[i].pid != 0 && entries[i].pid != entries[j].pid
  }

  predicate IsStagedEntry(e: Entry) {
    e.pid != 0 && e.kind == Staged
  }

  function CountStaged(entries: seq<Entry>): nat {
    if entries == [] then 0
    else CountStaged(entries[..|entries| - 1]) + if IsStagedEntry(entries[|entries| - 1]) then 1 else 0
  }

  predicate IsStored(e: Entry) {
    e.pid != 0 && (e.kind == NonVolatile || e.kind == Staged)
  }

  /** Parameters with data have memory for it; those that are stored have their own. */
  predicate Owned(t: Table) {
    && (forall i :: 0 <= i < |t.entries| && t.entries[i].pid != 0 ==>
          IsMemory(t, t.entries[i].cell, t.entries[i].size) && (IsStored(t.entries[i]) ==> t.entries[i].cell.Some?))
    && (forall i, j :: 0 <= i < |t.entries| && 0 <= j < |t.entries| && i != j ==>
          IsStored(t.entries[i]) && t.entries[j].pid != 0 ==>
          t.entries[i].cell != t.entries[j].cell)
  }

  /** What was set is in the table, and so is what was taken, as a stored parameter. */
  predicate Known(t: Table) {
    && 0 !in t.touched && (forall pid :: pid in t.touched ==> Find(t.entries, pid, 0).Some?)
    && (forall p :: p in t.taken ==> IsTakenFrom(t.entries, p))
  }

  predicate IsTakenFrom(entries: seq<Entry>, p: Taken) {
    var at := Find(entries, p.pid, 0);
    p.pid != 0 && at.Some? && entries[at.value].cell == Some(p.cell) && IsStored(entries[at.value])
  }

  /** Is the parameter set, not staged, and not about to be stored, and was it stored when last tried? */
  predicate IsSettled(t: Table, e: Entry) {
    && e.pid != 0 && e.kind == NonVolatile && e.cell.Some?
    && e.pid in t.touched && e.pid !in t.lost && Taken(e.pid, e.cell.value) !in t.taken
  }

  /** Is what is stored what is in memory? */
  predicate IsCoherent(t: Table, e: Entry)
    requires e.cell.Some?
  {
    && IsMemory(t, e.cell, e.size)
    && (e.size > 0 ==> e.pid in t.nvs && t.nvs[e.pid] == t.heap[e.cell.value][..e.size])
  }

  predicate Coherent(t: Table) {
    forall i :: 0 <= i < |t.entries| && IsSettled(t, t.entries[i]) ==> IsCoherent(t, t.entries[i])
  }

  predicate Counted(t: Table) {
    t.staged == CountStaged(t.entries)
  }

  predicate Inv(t: Table) {
    Packed(t.entries) && Counted(t) && Owned(t) && Known(t) && Coherent(t)
  }

  // ---------- counting ----------

  lemma {:induction false} CountUpdate(entries: seq<Entry>, i: nat, e: Entry)
    requires i < |entries|
    ensures CountStaged(entries[i := e]) ==
            CountStaged(entries) - (if IsStagedEntry(entries[i]) then 1 else 0) + (if IsStagedEntry(e) then 1 else 0)
  {
    var n := |entries| - 1;
    if i == n {
      assert entries[i := e][..n] == entries[..n];
    } else {
      assert entries[i := e][..n] == entries[..n][i := e];
      CountUpdate(entries[..n], i, e);
    }
  }

  lemma {:induction false} CountIsZero(entries: seq<Entry>)
    requires forall i :: 0 <= i < |entries| ==> !IsStagedEntry(entries[i])
    ensures CountStaged(entries) == 0
  {
    if entries != [] {
      CountIsZero(entries[..|entries| - 1]);
    }
  }

  lemma {:induction false} CountIsPositive(entries: seq<Entry>, i: nat)
    requires i < |entries| && IsStagedEntry(entries[i])
    ensures CountStaged(entries) > 0
  {
    if i < |entries| - 1 {
      CountIsPositive(entries[..|entries| - 1], i);
    }
  }

  /**
   While something is staged, a commit finds a parameter that is in use: no unused slot, whatever it
   holds, comes before it.
   */
  lemma {:induction false} CommitFindsStaged(t: Table)
    requires Packed(t.entries) && Counted(t) && t.staged > 0
    ensures var at := FindStaged(t.entries, 0);
            at.Some? && IsStagedEntry(t.entries[at.value])
  {
    if forall i :: 0 <= i < |t.entries| ==> !IsStagedEntry(t.entries[i]) {
      CountIsZero(t.entries);
    }
  }

  // ---------- adding ----------

  lemma {:induction false} FindIs(entries: seq<Entry>, i: nat, k: nat)
    requires Packed(entries) && k <= i < |entries| && entries[i].pid != 0
    ensures Find(entries, entries[i].pid, k) == Some(i)
    decreases i - k
  {
    if k < i {
      FindIs(entries, i, k + 1);
    }
  }

  lemma {:induction false} FindAfterUpdate(entries: seq<Entry>, i: nat, e: Entry, pid: Word, k: nat)
    requires i < |entries| && k <= |entries| && (entries[i].pid == e.pid || (pid != entries[i].pid && pid != e.pid))
    ensures Find(entries[i := e], pid, k) == Find(entries, pid, k)
    decreases |entries| - k
  {
    if k < |entries| {
      FindAfterUpdate(entries, i, e, pid, k + 1);
    }
  }

  /** May the memory be used by a parameter that does not own it? */
  predicate IsFree(t: Table, cell: Option<nat>) {
    cell.Some? ==> forall i :: 0 <= i < |t.entries| && IsStored(t.entries[i]) ==> t.entries[i].cell != cell
  }

  /** A new entry `e` in an unused slot, and memory that may have grown by one cell. */
  predicate IsExtension(t: Table, u: Table, i: nat, e: Entry) {
    && i < |t.entries| && t.entries[i].pid == 0 && e.pid != 0 && e.kind != Staged
    && (forall j :: 0 <= j < i ==> t.entries[j].pid != 0 && t.entries[j].pid != e.pid)
    && u == t.(entries := t.entries[i := e], heap := u.heap)
    && t.heap <= u.heap
    && IsMemory(u, e.cell, e.size)
    && (IsStored(e) ==> e.cell == Some(|t.heap|))
    && IsFree(t, e.cell)
  }

  lemma {:induction false} ExtensionKeepsPacked(t: Table, u: Table, i: nat, e: Entry)
    requires Packed(t.entries) && IsExtension(t, u, i, e)
    ensures Packed(u.entries)
    ensures forall j :: i <= j < |t.entries| ==> t.entries[j].pid == 0
  {
  }

  lemma {:induction false} ExtensionKeepsOwned(t: Table, u: Table, i: nat, e: Entry)
    requires Packed(t.entries) && Owned(t) && IsExtension(t, u, i, e)
    ensures Owned(u)
  {
  }

  lemma {:induction false} ExtensionFinds(t: Table, u: Table, i: nat, e: Entry, pid: Word)
    requires Packed(t.entries) && IsExtension(t, u, i, e) && pid != 0 && Find(t.entries, pid, 0).Some?
    ensures Find(u.entries, pid, 0) == Find(t.entries, pid, 0)
    ensures Find(t.entries, pid, 0).value < i
  {
    ExtensionKeepsPacked(t, u, i, e);
    FindIs(u.entries, Find(t.entries, pid, 0).value, 0);
  }

  lemma {:induction false} ExtensionKeepsCoherent(t: Table, u: Table, i: nat, e: Entry)
    requires Packed(t.entries) && Owned(t) && Known(t) && Coherent(t) && IsExtension(t, u, i, e)
    ensures Coherent(u)
  {
    forall j | 0 <= j < |u.entries| && IsSettled(u, u.entries[j])
      ensures IsCoherent(u, u.entries[j])
    {
      if j == i {
        ExtensionFinds(t, u, i, e, e.pid);
      } else {
        assert IsSettled(t, t.entries[j]);
      }
    }
  }

  lemma {:induction false} ExtensionKeepsKnown(t: Table, u: Table, i: nat, e: Entry)
    requires Packed(t.entries) && Known(t) && IsExtension(t, u, i, e)
    ensures Known(u)
  {
    forall pid | pid in t.touched
      ensures Find(u.entries, pid, 0).Some?
    {
      ExtensionFinds(t, u, i, e, pid);
    }
    forall p | p in t.taken
      ensures IsTakenFrom(u.entries, p)
    {
      ExtensionFinds(t, u, i, e, p.pid);
    }
  }

  lemma {:induction false} ExtensionKeepsInv(t: Table, u: Table, i: nat, e: Entry)
    requires Inv(t) && IsExtension(t, u, i, e)
    ensures Inv(u)
  {
    ExtensionKeepsPacked(t, u, i, e);
    ExtensionKeepsOwned(t, u, i, e);
    ExtensionKeepsKnown(t, u, i, e);
    ExtensionKeepsCoherent(t, u, i, e);
    CountUpdate(t.entries, i, e);
  }

  /** A parameter that shares its data must not share those of a stored one. */
  predicate MayAdd(t: Table, pid: Word, kind: Kind, data: Option<nat>, size: nat) {
    pid > 0 && IsMemory(t, data, size) && (kind == Static ==> IsFree(t, data))
  }

  lemma {:induction false} AddKeepsInv(
      t: Table, pid: Word, kind: Kind, data: Option<nat>, size: nat, mallocSucceeds: bool)
    requires Inv(t) && MayAdd(t, pid, kind, data, size)
    ensures Inv(Add(t, pid, kind, data, size, mallocSucceeds).0)
  {
    var u := Add(t, pid, kind, data, size, mallocSucceeds).0;
    if u != t {
      var i := FindSlot(t.entries, pid, 0).value;
      ExtensionKeepsInv(t, u, i, u.entries[i]);
    }
  }

  // ---------- setting ----------

  /** The same table but for the data at one address, and the kind of one entry, which stays stored if it was. */
  predicate IsChange(t: Table, u: Table, i: nat, cell: nat, bytes: seq<Byte>, kind: Kind) {
    && i < |t.entries| && t.entries[i].pid != 0
    && cell < |t.heap| && |bytes| == |t.heap[cell]|
    && u.entries == t.entries[i := t.entries[i].(kind := kind)]
    && u.heap == t.heap[cell := bytes]
    && (IsStored(t.entries[i]) <==> IsStored(u.entries[i]))
  }

  lemma {:induction false} ChangeKeepsPacked(t: Table, u: Table, i: nat, cell: nat, bytes: seq<Byte>, kind: Kind)
    requires Packed(t.entries) && Owned(t) && IsChange(t, u, i, cell, bytes, kind)
    ensures Packed(u.entries) && Owned(u)
  {
  }

  lemma {:induction false} ChangeKeepsKnown(t: Table, u: Table, i: nat, cell: nat, bytes: seq<Byte>, kind: Kind)
    requires Packed(t.entries) && Known(t) && IsChange(t, u, i, cell, bytes, kind)
    requires u.touched <= t.touched + {t.entries[i].pid}
    requires forall p :: p in u.taken ==> p in t.taken || IsTakenFrom(u.entries, p)
    ensures Known(u)
  {
    FindIs(t.entries, i, 0);
    forall pid: Word
      ensures Find(u.entries, pid, 0) == Find(t.entries, pid, 0)
    {
      FindAfterUpdate(t.entries, i, u.entries[i], pid, 0);
    }
  }

  lemma {:induction false} SetIsChange(t: Table, pid: Word, source: seq<Byte>)
    requires Inv(t) && pid > 0 && HasData(t, pid) && source != [] && Find(t.entries, pid, 0).Some?
    ensures var i, u := Find(t.entries, pid, 0).value, Set(t, pid, source).0;
            var c := t.entries[i].cell.value;
            IsChange(t, u, i, c, u.heap[c], u.entries[i].kind) && u.entries[i].kind != NonVolatile
  {
  }

  lemma {:induction false} SetKeepsCoherent(t: Table, pid: Word, source: seq<Byte>)
    requires Inv(t) && pid > 0 && HasData(t, pid)
    ensures Coherent(Set(t, pid, source).0)
  {
    var u, at := Set(t, pid, source).0, Find(t.entries, pid, 0);
    if source != [] && at.Some? {
      SetIsChange(t, pid, source);
      forall j | 0 <= j < |u.entries| && IsSettled(u, u.entries[j])
        ensures IsCoherent(u, u.entries[j])
      {
        assert j != at.value && IsSettled(t, t.entries[j]);
      }
    }
  }

  lemma {:induction false} SetKeepsInv(t: Table, pid: Word, source: seq<Byte>)
    requires Inv(t) && pid > 0 && HasData(t, pid)
    ensures Inv(Set(t, pid, source).0)
  {
    var u, at := Set(t, pid, source).0, Find(t.entries, pid, 0);
    if source != [] && at.Some? {
      var i := at.value;
      var c := t.entries[i].cell.value;
      SetIsChange(t, pid, source);
      ChangeKeepsPacked(t, u, i, c, u.heap[c], u.entries[i].kind);
      ChangeKeepsKnown(t, u, i, c, u.heap[c], u.entries[i].kind);
      CountUpdate(t.entries, i, u.entries[i]);
      SetKeepsCoherent(t, pid, source);
    }
  }

  // ---------- committing ----------

  /** The slot that a commit finds. */
  function StagedSlot(t: Table): (i: nat)
    requires Inv(t) && t.staged > 0
    ensures FindStaged(t.entries, 0) == Some(i) && i < |t.entries| && IsStagedEntry(t.entries[i])
    ensures t.entries[i].cell.Some? && t.entries[i].cell.value < |t.heap|
  {
    CommitFindsStaged(t);
    FindStaged(t.entries, 0).value
  }

  lemma {:induction false} TakeIsChange(t: Table)
    requires Inv(t) && t.staged > 0
    ensures var i, u := StagedSlot(t), Take(t).0;
            var c := t.entries[i].cell.value;
            && IsChange(t, u, i, c, t.heap[c], NonVolatile) && Take(t).1 == t.entries[i].pid
            && u.taken == t.taken + multiset{Taken(t.entries[i].pid, c)} && u.touched == t.touched
  {
    var c := t.entries[StagedSlot(t)].cell.value;
    assert t.heap[c := t.heap[c]] == t.heap;
  }

  lemma {:induction false} TakeKeepsCoherent(t: Table)
    requires Inv(t)
    ensures Coherent(Take(t).0)
  {
    var u := Take(t).0;
    if t.staged > 0 {
      TakeIsChange(t);
      var i := StagedSlot(t);
      forall j | 0 <= j < |u.entries| && IsSettled(u, u.entries[j])
        ensures IsCoherent(u, u.entries[j])
      {
        assert j != i && IsSettled(t, t.entries[j]);
      }
    }
  }

  lemma {:induction false} TakeKeepsInv(t: Table)
    requires Inv(t)
    ensures Inv(Take(t).0)
  {
    var u := Take(t).0;
    if t.staged > 0 {
      TakeIsChange(t);
      var i := StagedSlot(t);
      var c := t.entries[i].cell.value;
      ChangeKeepsPacked(t, u, i, c, t.heap[c], NonVolatile);
      FindAfterUpdate(t.entries, i, u.entries[i], t.entries[i].pid, 0);
      FindIs(t.entries, i, 0);
      ChangeKeepsKnown(t, u, i, c, t.heap[c], NonVolatile);
      CountUpdate(t.entries, i, u.entries[i]);
      TakeKeepsCoherent(t);
    }
  }

  lemma {:induction false} TakenHasMemory(t: Table, p: Taken)
    requires Inv(t) && p in t.taken
    ensures IsMemory(t, Some(p.cell), SizeOf(t, p.pid))
  {
    assert IsTakenFrom(t.entries, p);
  }

  lemma {:induction false} StoreKeepsCoherent(t: Table, p: Taken, succeeds: bool)
    requires Inv(t) && p in t.taken && IsMemory(t, Some(p.cell), SizeOf(t, p.pid))
    ensures Coherent(Store(t, p, succeeds))
  {
    var u := Store(t, p, succeeds);
    assert IsTakenFrom(t.entries, p);
    forall j | 0 <= j < |u.entries| && IsSettled(u, u.entries[j])
      ensures IsCoherent(u, u.entries[j])
    {
      FindIs(t.entries, j, 0);
      if u.entries[j].pid != p.pid {
        assert IsSettled(t, t.entries[j]);
      }
    }
  }

  lemma {:induction false} StoreKeepsInv(t: Table, p: Taken, succeeds: bool)
    requires Inv(t) && p in t.taken && IsMemory(t, Some(p.cell), SizeOf(t, p.pid))
    ensures Inv(Store(t, p, succeeds))
  {
    StoreKeepsCoherent(t, p, succeeds);
  }

  // ---------- runs ----------

  /** What the tasks of a device do to the table. The two halves of commits may interleave with anything. */
  datatype Op =
    | AddOp(pid: Word, kind: Kind, data: Option<nat>, size: nat, mallocSucceeds: bool)
    | SetOp(pid: Word, source: seq<Byte>)
    | TakeOp
    | StoreOp(p: Taken, succeeds: bool)

  predicate Allowed(t: Table, op: Op) {
    match op
    case AddOp(pid, kind, data, size, _) => MayAdd(t, pid, kind, data, size)
    case SetOp(pid, _) => pid > 0 && HasData(t, pid)
    case TakeOp => true
    case StoreOp(p, _) => p in t.taken && IsMemory(t, Some(p.cell), SizeOf(t, p.pid))
  }

  function Apply(t: Table, op: Op): Table
    requires Allowed(t, op)
  {
    match op
    case AddOp(pid, kind, data, size, mallocSucceeds) => Add(t, pid, kind, data, size, mallocSucceeds).0
    case SetOp(pid, source) => Set(t, pid, source).0
    case TakeOp => Take(t).0
    case StoreOp(p, succeeds) => Store(t, p, succeeds)
  }

  predicate AllAllowed(t: Table, ops: seq<Op>)
    decreases |ops|
  {
    ops == [] || (Allowed(t, ops[0]) && AllAllowed(Apply(t, ops[0]), ops[1..]))
  }

  function After(t: Table, ops: seq<Op>): Table
    requires AllAllowed(t, ops)
    decreases |ops|
  {
    if ops == [] then t else After(Apply(t, ops[0]), ops[1..])
  }

  /** A new table. Its slots are unused, and what they hold otherwise is arbitrary. */
  predicate IsNew(t: Table) {
    && t.staged == 0 && t.taken == multiset{} && t.touched == {}
    && forall i :: 0 <= i < |t.entries| ==> t.entries[i].pid == 0
  }

  lemma {:induction false} ApplyKeepsInv(t: Table, op: Op)
    requires Inv(t) && Allowed(t, op)
    ensures Inv(Apply(t, op))
  {
    match op
    case AddOp(pid, kind, data, size, mallocSucceeds) => AddKeepsInv(t, pid, kind, data, size, mallocSucceeds);
    case SetOp(pid, source) => SetKeepsInv(t, pid, source);
    case TakeOp => TakeKeepsInv(t);
    case StoreOp(p, succeeds) => StoreKeepsInv(t, p, succeeds);
  }

  /**
   Write-back is coherent: after any run, the slots in use come first and have distinct PIDs, the
   counter is the number of staged parameters, and every non-volatile parameter that was set, is not
   staged or being stored, and was stored when last tried, is stored as it is in memory.
   */
  lemma {:induction false} EveryRunKeepsInv(t: Table, ops: seq<Op>)
    requires (IsNew(t) || Inv(t)) && AllAllowed(t, ops)
    ensures Inv(After(t, ops))
    decreases |ops|
  {
    if IsNew(t) {
      CountIsZero(t.entries);
    }
    if ops != [] {
      ApplyKeepsInv(t, ops[0]);
      EveryRunKeepsInv(Apply(t, ops[0]), ops[1..]);
    }
  }

  // ---------- committing all ----------

  /** A commit that is not interrupted. */
  function Commit(t: Table, succeeds: bool): (u: Table)
    requires Inv(t)
    ensures Inv(u) && u.heap == t.heap && u.touched == t.touched && u.taken == t.taken
    ensures t.staged > 0 ==> u.staged == t.staged - 1
    ensures u.lost <= if succeeds then t.lost else t.lost + {Take(t).1}
  {
    if t.staged == 0 then t
    else
      TakeIsChange(t);
      TakeKeepsInv(t);
      var (u, pid) := Take(t);
      var p := Taken(pid, t.entries[StagedSlot(t)].cell.value);
      TakenHasMemory(u, p);
      StoreKeepsInv(u, p, succeeds);
      Store(u, p, succeeds)
  }

  /** Commits, as the receiving loop does when it is idle, until nothing is staged. */
  function CommitAll(t: Table): (u: Table)
    requires Inv(t)
    ensures Inv(u) && u.staged == 0 && u.heap == t.heap && u.touched == t.touched && u.taken == t.taken &&
            u.lost <= t.lost
    decreases t.staged
  {
    if t.staged == 0 then t else CommitAll(Commit(t, true))
  }

  /** As many commits as parameters are staged store all that was set. */
  lemma {:induction false} CommitAllStoresAll(t: Table, i: nat)
    requires Inv(t) && t.taken == multiset{}
    requires i < |CommitAll(t).entries| && IsStored(CommitAll(t).entries[i])
    requires CommitAll(t).entries[i].pid in t.touched && CommitAll(t).entries[i].pid !in t.lost
    ensures CommitAll(t).entries[i].cell.Some? && IsCoherent(CommitAll(t), CommitAll(t).entries[i])
  {
    var u := CommitAll(t);
    if IsStagedEntry(u.entries[i]) {
      CountIsPositive(u.entries, i);
    }
  }

  // ---------- what goes wrong ----------

  predicate IsIdle(t: Table, pid: Word) {
    && (forall i :: 0 <= i < |t.entries| && t.entries[i].pid == pid ==> t.entries[i].kind != Staged)
    && (forall p :: p in t.taken ==> p.pid != pid)
  }

  predicate SameStored(t: Table, u: Table, pid: Word) {
    (pid in u.nvs <==> pid in t.nvs) && (pid in t.nvs ==> u.nvs[pid] == t.nvs[pid])
  }

  lemma {:induction false} IdleAfterAdd(
      t: Table, pid: Word, added: Word, kind: Kind, data: Option<nat>, size: nat, ok: bool)
    requires pid != 0 && IsIdle(t, pid) && MayAdd(t, added, kind, data, size)
    ensures var u := Add(t, added, kind, data, size, ok).0;
            IsIdle(u, pid) && u.nvs == t.nvs
  {
  }

  lemma {:induction false} IdleAfterSet(t: Table, pid: Word, other: Word, source: seq<Byte>)
    requires pid != 0 && IsIdle(t, pid) && other > 0 && HasData(t, other) && other != pid
    ensures var u := Set(t, other, source).0;
            IsIdle(u, pid) && u.nvs == t.nvs
  {
  }

  lemma {:induction false} IdleAfterTake(t: Table, pid: Word)
    requires pid != 0 && IsIdle(t, pid)
    ensures IsIdle(Take(t).0, pid) && Take(t).0.nvs == t.nvs
  {
  }

  lemma {:induction false} IdleUntilSet(t: Table, op: Op, pid: Word)
    requires pid != 0 && IsIdle(t, pid) && Allowed(t, op) && !(op.SetOp? && op.pid == pid)
    ensures IsIdle(Apply(t, op), pid) && SameStored(t, Apply(t, op), pid)
  {
    match op
    case AddOp(added, kind, data, size, ok) => IdleAfterAdd(t, pid, added, kind, data, size, ok);
    case SetOp(other, source) => IdleAfterSet(t, pid, other, source);
    case TakeOp => IdleAfterTake(t, pid);
    case StoreOp(_, _) =>
  }

  /** What is idle is not stored until it is set again. */
  lemma {:induction false} IdleIsNotStored(t: Table, ops: seq<Op>, pid: Word)
    requires pid != 0 && IsIdle(t, pid) && AllAllowed(t, ops)
    requires forall i :: 0 <= i < |ops| ==> !(ops[i].SetOp? && ops[i].pid == pid)
    ensures SameStored(t, After(t, ops), pid)
    decreases |ops|
  {
    if ops != [] {
      IdleUntilSet(t, ops[0], pid);
      IdleIsNotStored(Apply(t, ops[0]), ops[1..], pid);
    }
  }

  /** Was the parameter taken once, and not staged again since? */
  predicate IsOnlyTaken(t: Table, p: Taken) {
    && t.taken[p] == 1 && p.pid != 0
    && (forall q :: q in t.taken && q.pid == p.pid ==> q == p)
    && (forall i :: 0 <= i < |t.entries| && t.entries[i].pid == p.pid ==> t.entries[i].kind != Staged)
  }

  lemma {:induction false} FailedStoreIsIdle(t: Table, p: Taken)
    requires IsOnlyTaken(t, p) && IsMemory(t, Some(p.cell), SizeOf(t, p.pid)) && SizeOf(t, p.pid) > 0
    ensures var u := Store(t, p, false);
            IsIdle(u, p.pid) && p.pid in u.lost && u.nvs == t.nvs && u.heap == t.heap && u.entries == t.entries
  {
    var u := Store(t, p, false);
    forall q | q in u.taken
      ensures q.pid != p.pid
    {
      assert q in t.taken;
    }
  }

  /**
   A parameter that could not be stored is not tried again: whatever happens, what is stored stays what
   it was before until the parameter is set again.
   */
  lemma {:induction false} LostUntilSet(t: Table, p: Taken, ops: seq<Op>)
    requires IsOnlyTaken(t, p) && IsMemory(t, Some(p.cell), SizeOf(t, p.pid)) && SizeOf(t, p.pid) > 0
    requires AllAllowed(Store(t, p, false), ops)
    requires forall i :: 0 <= i < |ops| ==> !(ops[i].SetOp? && ops[i].pid == p.pid)
    ensures SameStored(t, After(Store(t, p, false), ops), p.pid)
  {
    FailedStoreIsIdle(t, p);
    IdleIsNotStored(Store(t, p, false), ops, p.pid);
  }

  /**
   Nor need it be what is in memory: after a parameter is set to something else than what is stored,
   and storing that fails, the parameter is idle, and what is stored is not what is in memory.
   */
  lemma {:induction false} FailedStoreLosesTheValue(t: Table, i: nat, source: seq<Byte>)
    requires Inv(t) && t.staged == 0 && i < |t.entries| && IsSettled(t, t.entries[i]) && t.entries[i].size > 0
    requires (forall q :: q in t.taken ==> q.pid != t.entries[i].pid) && |source| == t.entries[i].size
    requires t.entries[i].pid !in t.nvs || t.nvs[t.entries[i].pid] != source
    ensures HasData(t, t.entries[i].pid)
    ensures var pid, u := t.entries[i].pid, Set(t, t.entries[i].pid, source).0;
            var v, p := Take(u).0, Taken(pid, t.entries[i].cell.value);
            && Take(u).1 == pid && p in v.taken && IsMemory(v, Some(p.cell), SizeOf(v, pid))
            && var z := Store(v, p, false);
               && IsIdle(z, pid) && z.entries[i] == t.entries[i] && !IsCoherent(z, z.entries[i])
  {
    var pid := t.entries[i].pid;
    FindIs(t.entries, i, 0);
    var u := Set(t, pid, source).0;
    SetKeepsInv(t, pid, source);
    OnlyOneIsStaged(t, u, i);
    var v, p := Take(u).0, Taken(pid, t.entries[i].cell.value);
    assert v.entries == t.entries;
    assert u.heap[p.cell][..|source|] == source;
    FailedStoreIsIdle(v, p);
  }

  lemma {:induction false} OnlyOneIsStaged(t: Table, u: Table, i: nat)
    requires Packed(t.entries) && Counted(t) && t.staged == 0 && Packed(u.entries) && Counted(u) && u.staged > 0
    requires i < |t.entries| && t.entries[i].pid != 0 && u.entries == t.entries[i := t.entries[i].(kind := Staged)]
    ensures FindStaged(u.entries, 0) == Some(i)
  {
    CommitFindsStaged(u);
    var at := FindStaged(u.entries, 0).value;
    if at != i {
      CountIsPositive(t.entries, at);
    }
  }

  /** A parameter that shares the data of a stored one changes it without staging it. */
  lemma {:induction false} SharingBreaksCoherence(t: Table, i: nat, pid: Word, x: Byte)
    requires Inv(t) && i < |t.entries| && IsSettled(t, t.entries[i]) && t.entries[i].size == 1
    requires pid > 0 && FindSlot(t.entries, pid, 0).Some? && t.entries[FindSlot(t.entries, pid, 0).value].pid == 0
    requires IsCoherent(t, t.entries[i]) && x != t.nvs[t.entries[i].pid][0]
    ensures IsMemory(t, t.entries[i].cell, 1)
    ensures var u := Add(t, pid, Static, t.entries[i].cell, 1, true).0;
            && HasData(u, pid)
            && var v := Set(u, pid, [x]).0;
               && v.entries[i] == t.entries[i] && IsSettled(v, v.entries[i]) && !IsCoherent(v, v.entries[i])
  {
    var k := FindSlot(t.entries, pid, 0).value;
    var u := Add(t, pid, Static, t.entries[i].cell, 1, true).0;
    FindNew(t.entries, pid, u.entries[k], 0);
  }

  lemma {:induction false} FindNew(entries: seq<Entry>, pid: Word, e: Entry, k: nat)
    requires pid != 0 && e.pid == pid && k <= |entries| && FindSlot(entries, pid, k).Some?
    ensures Find(entries[FindSlot(entries, pid, k).value := e], pid, k) == FindSlot(entries, pid, k)
    decreases |entries| - k
  {
    if entries[k].pid != pid && entries[k].pid != 0 {
      FindNew(entries, pid, e, k + 1);
    }
  }

  // ---------- the mute flag ----------

  function DataOf(t: Table, pid: Word): Option<nat>
    requires pid > 0
  {
    match Find(t.entries, pid, 0)
    case None => None
    case Some(i) => t.entries[i].cell
  }

  /** Adds one of two parameters that share a flag: a new one that is 0, or an alias of the other's. */
  function AddFlag(t: Table, pid: Word, other: Word, mallocSucceeds: bool): (Table, bool)
    requires pid > 0 && other > 0 && IsMemory(t, DataOf(t, other), 1)
  {
    var data := DataOf(t, other);
    if data == None then Add(t, pid, Dynamic, None, 1, mallocSucceeds) else Add(t, pid, Static, data, 1, mallocSucceeds)
  }

  /** Do two parameters share one byte? */
  predicate IsSharedFlag(t: Table, a: Word, b: Word, cell: nat)
    requires a > 0 && b > 0
  {
    && Find(t.entries, a, 0).Some? && Find(t.entries, b, 0).Some?
    && DataOf(t, a) == Some(cell) && DataOf(t, b) == Some(cell)
    && SizeOf(t, a) == 1 && SizeOf(t, b) == 1 && cell < |t.heap| && |t.heap[cell]| == 1
  }

  lemma {:induction false} FindOther(entries: seq<Entry>, pid: Word, i: nat, e: Entry, k: nat)
    requires i < |entries| && k <= |entries| && entries[i].pid == 0 && pid != 0 && pid != e.pid
    ensures Find(entries[i := e], pid, k) == Find(entries, pid, k)
    decreases |entries| - k
  {
    if k < |entries| {
      FindOther(entries, pid, i, e, k + 1);
    }
  }

  /** Adding a parameter does not change where another is found. */
  lemma {:induction false} AddKeepsFind(
      t: Table, added: Word, kind: Kind, data: Option<nat>, size: nat, ok: bool, pid: Word)
    requires added > 0 && IsMemory(t, data, size) && pid != 0 && pid != added
    ensures Find(Add(t, added, kind, data, size, ok).0.entries, pid, 0) == Find(t.entries, pid, 0)
  {
    var at := FindSlot(t.entries, added, 0);
    if at.Some? && t.entries[at.value].pid == 0 {
      FindOther(t.entries, pid, at.value, Add(t, added, kind, data, size, ok).0.entries[at.value], 0);
    }
  }

  // ---------- what is found in the table ----------

  /** Is there no such parameter, and an unused slot for it? */
  predicate HasRoomFor(t: Table, pid: Word) {
    Find(t.entries, pid, 0) == None && exists i :: 0 <= i < |t.entries| && t.entries[i].pid == 0
  }

  /** Are the memory, the size and the kind of the parameter the same in both? */
  predicate IsSameIn(t: Table, u: Table, pid: Word)
    requires pid > 0
  {
    && Find(u.entries, pid, 0) == Find(t.entries, pid, 0)
    && DataOf(u, pid) == DataOf(t, pid) && SizeOf(u, pid) == SizeOf(t, pid)
    && forall c :: 0 <= c < |t.heap| ==> c < |u.heap| && u.heap[c] == t.heap[c]
  }

  lemma {:induction false} NoneIsUnused(entries: seq<Entry>, pid: Word, k: nat)
    requires pid != 0 && k <= |entries|
    ensures FindSlot(entries, pid, k) == None ==> Find(entries, pid, k) == None
    ensures FindSlot(entries, pid, k) == None ==> forall i :: k <= i < |entries| ==> entries[i].pid != 0
  {
  }

  /**
   A new parameter of the kinds that own their data holds what the caller's data are at the call, as many
   bytes as its size says, or zeros if there are no data. One that shares its data is at their address.
   A parameter that exists is left as it is, and so is the table if it is full or memory cannot be had.
   */
  lemma {:induction false} AddedIsFound(t: Table, pid: Word, kind: Kind, data: Option<nat>, size: nat, ok: bool)
    requires pid > 0 && IsMemory(t, data, size) && kind != Staged
    ensures var (u, added) := Add(t, pid, kind, data, size, ok);
            && (HasRoomFor(t, pid) && (kind == Dynamic || kind == NonVolatile) && ok ==>
                  && added && HasData(u, pid) && SizeOf(u, pid) == size && DataOf(u, pid) == Some(|t.heap|)
                  && Copy(u, pid, size) == if data.Some? then t.heap[data.value][..size] else seq(size, _ => 0))
            && (HasRoomFor(t, pid) && kind == Static ==>
                  added && SizeOf(u, pid) == size && DataOf(u, pid) == data && u.heap == t.heap)
            && (HasRoomFor(t, pid) && kind == Null ==> added && DataOf(u, pid) == None && u.heap == t.heap)
  {
    var u := Add(t, pid, kind, data, size, ok).0;
    if HasRoomFor(t, pid) && (ok || kind == Static || kind == Null) {
      NoneIsUnused(t.entries, pid, 0);
      var at := FindSlot(t.entries, pid, 0).value;
      FindNew(t.entries, pid, u.entries[at], 0);
    }
  }

  lemma {:induction false} AddFailsWithoutRoom(
      t: Table, pid: Word, kind: Kind, data: Option<nat>, size: nat, ok: bool)
    requires pid > 0 && IsMemory(t, data, size) && kind != Staged && Packed(t.entries)
    requires !HasRoomFor(t, pid) || (!ok && kind != Static && kind != Null)
    ensures Add(t, pid, kind, data, size, ok) == (t, Find(t.entries, pid, 0).Some?)
  {
    NoneIsUnused(t.entries, pid, 0);
    var at := FindSlot(t.entries, pid, 0);
    if at.Some? {
      FoundIsFirst(t.entries, pid, at.value, 0);
    }
  }

  /** In a packed table, what is found is before any unused slot. */
  lemma {:induction false} FoundIsFirst(entries: seq<Entry>, pid: Word, at: nat, k: nat)
    requires pid != 0 && k <= at && k <= |entries| && Packed(entries) && FindSlot(entries, pid, k) == Some(at)
    ensures Find(entries, pid, k) == if entries[at].pid == pid then Some(at) else None
    decreases |entries| - k
  {
    if k < at {
      FoundIsFirst(entries, pid, at, k + 1);
    } else if entries[at].pid != pid {
      assert Find(entries, pid, k).None?;
    }
  }

  /** Adding a parameter leaves every other as it was, and whatever is in memory. */
  lemma {:induction false} AddKeepsOthers(
      t: Table, added: Word, kind: Kind, data: Option<nat>, size: nat, ok: bool, pid: Word, k: nat)
    requires added > 0 && IsMemory(t, data, size) && pid > 0 && pid != added
    ensures var u := Add(t, added, kind, data, size, ok).0;
            IsSameIn(t, u, pid) && (HasData(t, pid) ==> HasData(u, pid) && Copy(u, pid, k) == Copy(t, pid, k))
  {
    AddKeepsFind(t, added, kind, data, size, ok, pid);
  }

  /**
   Setting a parameter replaces as many of its bytes as the source has, from the first on and no more than
   there are, and keeps the others. It says how many: none if there is no such parameter.
   */
  lemma {:induction false} SetIsCopied(t: Table, pid: Word, source: seq<Byte>, k: nat)
    requires pid > 0 && HasData(t, pid)
    ensures var (u, n) := Set(t, pid, source);
            && n == Min(|source|, SizeOf(t, pid))
            && Find(u.entries, pid, 0) == Find(t.entries, pid, 0) && HasData(u, pid)
            && DataOf(u, pid) == DataOf(t, pid) && SizeOf(u, pid) == SizeOf(t, pid)
            && Copy(u, pid, k) == (source[..n] + Copy(t, pid, SizeOf(t, pid))[n..])[..Min(k, SizeOf(t, pid))]
  {
    var u := Set(t, pid, source).0;
    if source != [] && Find(t.entries, pid, 0).Some? {
      var at := Find(t.entries, pid, 0).value;
      FindAfterUpdate(t.entries, at, u.entries[at], pid, 0);
      SpliceCopies(t.heap[t.entries[at].cell.value], source, Min(|source|, SizeOf(t, pid)), SizeOf(t, pid));
    } else {
      assert source[..0] + Copy(t, pid, SizeOf(t, pid))[0..] == Copy(t, pid, SizeOf(t, pid));
    }
    CopyIsPrefix(u, pid, k);
  }

  lemma {:induction false} SpliceCopies(cell: seq<Byte>, source: seq<Byte>, n: nat, size: nat)
    requires n <= |source| && n <= size <= |cell|
    ensures (source[..n] + cell[n..])[..size] == source[..n] + cell[..size][n..]
  {
  }

  lemma {:induction false} CopyIsPrefix(t: Table, pid: Word, k: nat)
    requires pid > 0 && HasData(t, pid)
    ensures Copy(t, pid, k) == Copy(t, pid, SizeOf(t, pid))[..Min(k, SizeOf(t, pid))]
  {
    if Find(t.entries, pid, 0).Some? {
      var e := t.entries[Find(t.entries, pid, 0).value];
      var m := Min(k, e.size);
      assert t.heap[e.cell.value][..e.size][..m] == t.heap[e.cell.value][..m];
    }
  }

  /** Whichever of the two is registered first, they share one byte, which is 0 at first. */
  lemma {:induction false} FlagIsShared(t: Table, a: Word, b: Word)
    requires a > 0 && b > 0 && a != b && Find(t.entries, a, 0) == None && Find(t.entries, b, 0) == None
    requires exists i, j :: 0 <= i < j < |t.entries| && t.entries[i].pid == 0 && t.entries[j].pid == 0
    ensures var (u, added) := AddFlag(t, a, b, true);
            && added && IsMemory(u, DataOf(u, a), 1)
            && var (v, addedToo) := AddFlag(u, b, a, true);
               addedToo && IsSharedFlag(v, a, b, |t.heap|) && v.heap == t.heap + [[0]]
  {
    var p, q :| 0 <= p < q < |t.entries| && t.entries[p].pid == 0 && t.entries[q].pid == 0;
    var i := FindSlot(t.entries, a, 0).value;
    var u := AddFlag(t, a, b, true).0;
    FindNew(t.entries, a, u.entries[i], 0);
    FindOther(t.entries, b, i, u.entries[i], 0);
    assert u.entries[q].pid == 0;
    assert seq(1, _ => 0) == [0];
    var j := FindSlot(u.entries, b, 0).value;
    var v := AddFlag(u, b, a, true).0;
    FindNew(u.entries, b, v.entries[j], 0);
    FindOther(u.entries, a, j, v.entries[j], 0);
  }

  /** What is written by either is read by both. */
  lemma {:induction false} SharedFlagIsCopied(t: Table, a: Word, b: Word, cell: nat, x: Byte)
    requires a > 0 && b > 0 && IsSharedFlag(t, a, b, cell)
    ensures HasData(t, b)
    ensures var u := Set(t, b, [x]).0;
            IsSharedFlag(u, a, b, cell) && Copy(u, a, 1) == [x] && Copy(u, b, 1) == [x]
  {
    var at := Find(t.entries, b, 0).value;
    var u := Set(t, b, [x]).0;
    FindAfterUpdate(t.entries, at, u.entries[at], a, 0);
    FindAfterUpdate(t.entries, at, u.entries[at], b, 0);
    assert u.heap[cell] == [x] + t.heap[cell][1..];
  }
}

/** The table as the library has it: an array of parameters, updated in place. */
module ParameterCode {
  import opened Bytes
  import opened Parameters

  class Device {
    const entries: array<Entry>
    var staged: int
    var heap: seq<seq<Byte>>
    var nvs: map<Word, seq<Byte>>
    ghost var taken: multiset<Taken>
    ghost var touched: set<Word>
    ghost var lost: set<Word>

    ghost function State(): Table
      reads this, entries
    {
      Table(entries[..], staged, heap, nvs, taken, touched, lost)
    }

    constructor (slots: array<Entry>)
      modifies slots
      ensures entries == slots && IsNew(State())
    {
      entries, staged, heap, nvs := slots, 0, [], map[];
      taken, touched, lost := multiset{}, {}, {};
      new;
      for i := 0 to slots.Length
        modifies slots
        invariant forall j :: 0 <= j < i ==> slots[j].pid == 0
      {
        slots[i] := slots[i].(pid := 0);
      }
    }

    /** Looks a parameter up. */
    method GetEntry(pid: Word) returns (at: Option<nat>)
      requires pid > 0
      ensures at == Find(entries[..], pid, 0)
    {
      for i := 0 to entries.Length
        invariant Find(entries[..], pid, 0) == Find(entries[..], pid, i)
      {
        if entries[i].pid == pid {
          return Some(i);
        }
      }
      at := None;
    }

    /** Adds a parameter in the first unused slot, unless it exists. */
    method AddParameter(pid: Word, kind: Kind, data: Option<nat>, size: nat, mallocSucceeds: bool) returns (ok: bool)
      requires pid > 0 && IsMemory(State(), data, size)
      modifies this, entries
      ensures (State(), ok) == Add(old(State()), pid, kind, data, size, mallocSucceeds)
    {
      for i := 0 to entries.Length
        invariant State() == old(State())
        invariant FindSlot(entries[..], pid, 0) == FindSlot(entries[..], pid, i)
      {
        if entries[i].pid == pid {
          return true;
        } else if entries[i].pid == 0 {
          ok := FillSlot(i, pid, kind, data, size, mallocSucceeds);
          return;
        }
      }
      ok := false;
    }

    method FillSlot(
        i: nat, pid: Word, kind: Kind, data: Option<nat>, size: nat, mallocSucceeds: bool) returns (ok: bool)
      requires pid > 0 && IsMemory(State(), data, size)
      requires FindSlot(entries[..], pid, 0) == Some(i) && entries[i].pid == 0
      modifies this, entries
      ensures (State(), ok) == Add(old(State()), pid, kind, data, size, mallocSucceeds)
    {
      var cell: Option<nat>;
      match kind {
        case Dynamic | NonVolatile =>
          if !mallocSucceeds {
            return false;
          }
          cell := Some(|heap|);
          heap := heap + [if data.Some? then heap[data.value][..size] else seq(size, _ => 0)];
        case Static => cell := data;
        case Null => cell := None;
        case Staged => return false;
      }
      entries[i] := Entry(pid, size, cell, kind);
      ok := true;
    }

    /** Copies a parameter's first bytes. */
    method CopyParameter(pid: Word, size: nat) returns (bytes: seq<Byte>)
      requires pid > 0 && HasData(State(), pid)
      ensures bytes == Copy(State(), pid, size)
    {
      var at := GetEntry(pid);
      if at == None {
        return [];
      }
      var n := if size > entries[at.value].size then entries[at.value].size else size;
      bytes := heap[entries[at.value].cell.value][..n];
    }

    method SetParameter(pid: Word, source: seq<Byte>) returns (n: nat)
      requires pid > 0 && HasData(State(), pid)
      modifies this, entries
      ensures (State(), n) == Set(old(State()), pid, source)
    {
      if source == [] {
        return 0;
      }
      var at := GetEntry(pid);
      if at == None {
        return 0;
      }
      var e := entries[at.value];
      n := if |source| > e.size then e.size else |source|;
      heap := heap[e.cell.value := source[..n] + heap[e.cell.value][n..]];
      touched := touched + {pid};
      if e.kind == NonVolatile {
        entries[at.value] := e.(kind := Staged);
        staged := staged + 1;
      }
    }

    /** The critical section of a commit. */
    method TakeStaged() returns (pid: Word, cell: nat)
      requires Inv(State())
      modifies this, entries
      ensures (State(), pid) == Take(old(State()))
      ensures pid != 0 ==> Taken(pid, cell) in taken
    {
      pid, cell := 0, 0;
      if staged == 0 {
        return;
      }
      ghost var slot := StagedSlot(State());
      for i := 0 to entries.Length
        invariant State() == old(State())
        invariant FindStaged(entries[..], 0) == FindStaged(entries[..], i) == Some(slot)
      {
        if entries[i].kind == Staged {
          entries[i] := entries[i].(kind := NonVolatile);
          staged := staged - 1;
          pid := entries[i].pid;
          cell := entries[i].cell.value;
          taken := taken + multiset{Taken(pid, cell)};
          return;
        }
      }
    }

    /** Stores what was taken. */
    method StoreTaken(pid: Word, cell: nat, succeeds: bool)
      requires pid > 0 && Taken(pid, cell) in taken && IsMemory(State(), Some(cell), SizeOf(State(), pid))
      modifies this
      ensures State() == Store(old(State()), Taken(pid, cell), succeeds)
    {
      var at := GetEntry(pid);
      var size := if at.Some? then entries[at.value].size else 0;
      taken := taken - multiset{Taken(pid, cell)};
      if size > 0 {
        if succeeds {
          nvs := nvs[pid := heap[cell][..size]];
          lost := lost - {pid};
        } else {
          lost := lost + {pid};
        }
      }
    }

    /** Stores one staged parameter, if there is one. Returns its PID. */
    method CommitOne(succeeds: bool) returns (pid: Word)
      requires Inv(State())
      modifies this, entries
      ensures State() == Commit(old(State()), succeeds) && pid == Take(old(State())).1
    {
      ghost var before := State();
      TakeKeepsInv(before);
      var cell;
      pid, cell := TakeStaged();
      if pid > 0 {
        TakenHasMemory(State(), Taken(pid, cell));
        StoreTaken(pid, cell, succeeds);
      }
    }
  }
}
