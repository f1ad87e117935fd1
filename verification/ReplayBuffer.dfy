/**
 The SoftSDV replay buffer (feeders/inst/softsdv/softsdv_replay.cpp and .h): a
 doubly linked list of live instructions with a fetch cursor, a private free
 list of nodes, and lists of register-value records.
 */
module SoftsdvReplay {
  import opened Wrappers
  import opened RegisterRecords
  import opened ReplaySpec
  import opened Sequences

  class LiveInstruction {
    var instr: SdvInstr
    var inputRegValues: Option<RegInfo>
    var prev: LiveInstruction?
    var next: LiveInstruction?
    var uid: nat
    var implicitCommit: bool
    var artificialInstr: bool

    constructor (instr: SdvInstr)
      ensures inputRegValues == None
    {
      this.instr := instr;
      inputRegValues, prev, next := None, null, null;
      uid, implicitCommit, artificialInstr := 0, false, false;
    }
  }

  ghost function EntryOf(n: LiveInstruction): Entry
    reads n`instr, n`uid, n`implicitCommit, n`artificialInstr
  {
    Entry(n.instr, n.uid, n.implicitCommit, n.artificialInstr)
  }

  /** The nodes are linked both ways in this order and to nothing else. */
  ghost predicate Chained(nodes: seq<LiveInstruction>)
    reads nodes`next, nodes`prev
  {
    && Distinct(nodes)
    && (nodes != [] ==> nodes[0].prev == null && nodes[|nodes| - 1].next == null)
    && (forall i {:trigger nodes[i].next} | 0 <= i < |nodes| - 1 :: nodes[i].next == nodes[i + 1])
    && (forall i {:trigger nodes[i].prev} | 0 < i < |nodes| :: nodes[i].prev == nodes[i - 1])
  }

  /** A list after the elements of `s` have been pushed one by one onto its front. */
  ghost function Pushed<T>(s: seq<T>, list: seq<T>): (r: seq<T>)
    ensures forall x | x in s :: x in r
    ensures forall x | x in list :: x in r
  {
    if s == [] then list else Pushed(s[1..], [s[0]] + list)
  }

  lemma DropTake<T>(s: seq<T>, j: nat)
    requires 0 < j <= |s|
    ensures s[1..][..j - 1] == s[..j][1..] && s[1..][j - 1..] == s[j..] && s[..j][0] == s[0]
  {
  }

  ghost predicate Mirrors(nodes: seq<LiveInstruction>, entries: seq<Entry>)
    reads nodes`instr, nodes`uid, nodes`implicitCommit, nodes`artificialInstr
  {
    && |entries| == |nodes|
    && (forall i {:trigger entries[i]} {:trigger nodes[i].uid} | 0 <= i < |nodes| :: entries[i] == EntryOf(nodes[i]))
  }

  ghost predicate Holds(nodes: seq<LiveInstruction>, held: seq<Option<RegInfo>>)
    reads nodes`inputRegValues
  {
    && |held| == |nodes|
    && (forall i {:trigger held[i]} {:trigger nodes[i].inputRegValues} | 0 <= i < |nodes| ::
          held[i] == nodes[i].inputRegValues)
  }

  ghost predicate Disjoint(a: seq<LiveInstruction>, b: seq<LiveInstruction>) {
    forall i, j | 0 <= i < |a| && 0 <= j < |b| :: a[i] != b[j]
  }

  lemma InsertMirrors(nodes: seq<LiveInstruction>, entries: seq<Entry>, held: seq<Option<RegInfo>>, k: nat,
                      n: LiveInstruction)
    requires Mirrors(nodes, entries) && Holds(nodes, held) && k <= |nodes|
    ensures Mirrors(Insert(nodes, k, n), Insert(entries, k, EntryOf(n)))
    ensures Holds(Insert(nodes, k, n), Insert(held, k, n.inputRegValues))
  {
  }

  lemma InsertAt<T>(s: seq<T>, k: nat, x: T)
    requires k <= |s|
    ensures forall i {:trigger Insert(s, k, x)[i]} | 0 <= i <= |s| ::
      Insert(s, k, x)[i] == if i < k then s[i] else if i == k then x else s[i - 1]
  {
  }

  lemma InsertDistinct(s: seq<LiveInstruction>, k: nat, n: LiveInstruction)
    requires k <= |s| && Distinct(s) && n !in s
    ensures Distinct(Insert(s, k, n))
  {
    hide Insert;
    InsertAt(s, k, n);
    assert forall i | 0 <= i < |s| :: s[i] in s;
  }

  lemma InsertLast<T>(s: seq<T>, x: T)
    ensures Insert(s, |s|, x) == s + [x]
  {
  }

  lemma RemoveMirrors(nodes: seq<LiveInstruction>, entries: seq<Entry>, held: seq<Option<RegInfo>>, k: nat)
    requires k < |nodes| && Mirrors(nodes, entries) && Holds(nodes, held)
    ensures Mirrors(Without(nodes, k), Without(entries, k))
    ensures Holds(Without(nodes, k), Without(held, k))
  {
  }

  lemma RemoveDisjoint(a: seq<LiveInstruction>, b: seq<LiveInstruction>, k: nat)
    requires k < |a| && Distinct(a) && Disjoint(a, b)
    ensures Disjoint(Without(a, k), b) && a[k] !in Without(a, k) && a[k] !in b
  {
  }

  lemma FillsUp<T>(part: set<T>, whole: set<T>)
    requires part <= whole && |part| == |whole|
    ensures part == whole
  {
    var rest := whole - part;
    assert part + rest == whole && part !! rest;
    assert |part + rest| == |part| + |rest|;
    assert rest == {};
  }

  class ReplayBuffer {
    var head: LiveInstruction?
    var tail: LiveInstruction?
    var nextFetch: LiveInstruction?
    var freeList: LiveInstruction?
    var regValuesList: seq<RegInfo>
    var regValuesFreeList: seq<RegInfo>
    var uid: nat

    ghost var nodes: set<LiveInstruction>    // every node allocated so far
    ghost var active: seq<LiveInstruction>   // the nodes from head to tail
    ghost var free: seq<LiveInstruction>     // the nodes on the free list
    ghost var cursor: nat                    // position of nextFetch in active
    ghost var entries: seq<Entry>            // what the active nodes contain
    ghost var held: seq<Option<RegInfo>>     // the register record of each active node
    var nRecords: nat   // register records allocated so far; the next storage the allocator hands out

    /** The next chain from head and the prev chain from tail both spell `active`. */
    ghost predicate ActiveChain()
      reads `head, `tail, `active, active`next, active`prev
    {
      && Chained(active)
      && head == (if active == [] then null else active[0])
      && tail == (if active == [] then null else active[|active| - 1])
    }

    ghost predicate FreeChain()
      reads `freeList, `free, free`next, free`inputRegValues
    {
      && Distinct(free)
      && freeList == (if free == [] then null else free[0])
      && (free != [] ==> free[|free| - 1].next == null)
      && (forall i {:trigger free[i].next} | 0 <= i < |free| - 1 :: free[i].next == free[i + 1])
      && (forall i {:trigger free[i].inputRegValues} | 0 <= i < |free| :: free[i].inputRegValues == None)
    }

    /** No node is on both lists. */
    ghost predicate Apart()
      reads `active, `free
    {
      Disjoint(active, free)
    }

    /** Every register record ever allocated is in exactly one place: pending, unused, or
        held by one live instruction. */
    ghost predicate Conserved()
      reads `regValuesList, `regValuesFreeList, `nRecords, `held
    {
      Partition(regValuesList, regValuesFreeList, Kept(held), nRecords)
    }

    ghost predicate CursorOk()
      reads `active, `cursor, `nextFetch
    {
      CursorAmong(active)
    }

    ghost predicate CursorAmong(list: seq<LiveInstruction>)
      reads `cursor, `nextFetch
    {
      cursor <= |list| && nextFetch == if cursor < |list| then list[cursor] else null
    }

    ghost predicate Owned()
      reads `nodes, `active, `free
    {
      (forall i | 0 <= i < |active| :: active[i] in nodes) && (forall i | 0 <= i < |free| :: free[i] in nodes)
    }

    ghost predicate Shape(): (shaped: bool)
      ensures shaped ==> |entries| == |held| == |active| && (forall i | 0 <= i < |active| :: active[i] in nodes)
      reads `head, `tail, `nodes, `active, `freeList, `free, `entries, `held, active, free
    {
      var linked :=
        Owned() && ActiveChain() && FreeChain() && Apart() && Mirrors(active, entries) && Holds(active, held);
      linked
    }

    /** With the nodes counted, those on the two lists are all there are. */
    ghost predicate Valid()
      reads this, active, free
    {
      Shape() && Conserved() && CursorOk() && |nodes| == |active| + |free|
    }

    ghost function Abs(): Replay
      reads `entries, `cursor, `uid
    {
      Replay(entries, cursor, uid)
    }

    /** Every node ever allocated is on exactly one list, the active one or the free one. */
    lemma OnExactlyOneList(n: LiveInstruction)
      requires Valid() && n in nodes
      ensures (n in active) != (n in free)
    {
      DistinctSize(active);
      DistinctSize(free);
      var a, f := Members(active), Members(free);
      assert a !! f;
      assert |a + f| == |a| + |f|;
      FillsUp(a + f, nodes);
    }

    constructor ()
      ensures Valid() && Abs() == Replay([], 0, 0)
      ensures nodes == {} && free == [] && nRecords == 0
    {
      head, tail, nextFetch, freeList := null, null, null, null;
      regValuesList, regValuesFreeList, uid := [], [], 0;
      nodes, active, free, cursor, entries, held, nRecords := {}, [], [], 0, [], [], 0;
    }

    /** Takes a node from the free list, or makes a new one. */
    method AllocateLiveInstr(instr: SdvInstr) returns (n: LiveInstruction)
      requires Shape()
      modifies this`freeList, this`free, this`nodes
      ensures Shape() && n !in active && n !in free && n.inputRegValues == None
      ensures if old(free) == [] then fresh(n) && free == [] && n !in old(nodes)
              else n == old(free)[0] && free == old(free)[1..] && n in old(nodes)
      ensures nodes == old(nodes) + {n} && |nodes| == |old(nodes)| + if old(free) == [] then 1 else 0
    {
      if freeList != null {
        n := freeList;
        freeList := freeList.next;
        free := free[1..];
        assert nodes == nodes + {n};
      } else {
        n := new LiveInstruction(instr);
        nodes := nodes + {n};
      }
    }

    /** A node with a fresh uid, ready to be linked in. */
    method PrepareNode(instr: SdvInstr, artificial: bool) returns (n: LiveInstruction)
      requires Shape()
      modifies this`freeList, this`free, this`uid, this`nodes,
               nodes`instr, nodes`uid, nodes`implicitCommit, nodes`artificialInstr
      ensures Shape() && n !in active && n !in free && uid == old(uid) + 1
      ensures if old(free) == [] then fresh(n) && free == [] && n !in old(nodes)
              else n == old(free)[0] && free == old(free)[1..] && n in old(nodes)
      ensures nodes == old(nodes) + {n} && |nodes| == |old(nodes)| + if old(free) == [] then 1 else 0
      ensures EntryOf(n) == Entry(instr, uid, artificial, artificial) && n.inputRegValues == None
    {
      hide Shape;
      n := AllocateLiveInstr(instr);
      uid := uid + 1;
      n.instr, n.uid, n.implicitCommit, n.artificialInstr := instr, uid, artificial, artificial;
    }

    /** Returns a node, and the register record it holds, to their free lists. */
    method DeallocateLiveInstr(n: LiveInstruction)
      requires Shape() && n in nodes && n !in active && n !in free
      requires Partition(regValuesList, Kept([n.inputRegValues]) + regValuesFreeList, Kept(held), nRecords)
      modifies this`freeList, this`free, this`regValuesFreeList, n`next, n`inputRegValues
      ensures Shape() && Conserved() && free == [n] + old(free)
      ensures regValuesFreeList == Kept([old(n.inputRegValues)]) + old(regValuesFreeList)
    {
      KeptOne(n.inputRegValues, regValuesFreeList);
      if n.inputRegValues != None {
        regValuesFreeList := [n.inputRegValues.value] + regValuesFreeList;
        n.inputRegValues := None;
      }
      n.next := freeList;
      freeList := n;
      free := [n] + free;
    }

    /** Keeps a copy of an incoming register-value message at the end of the pending list. */
    method PushRegisterValues(recordUid: nat, values: seq<int>)
      requires Valid()
      modifies this`regValuesList, this`regValuesFreeList, this`nRecords
      ensures Valid() && Abs() == old(Abs())
      ensures |regValuesList| == |old(regValuesList)| + 1 && old(regValuesList) <= regValuesList
      ensures var r := regValuesList[|regValuesList| - 1]; r.uid == recordUid && r.values == values
      ensures regValuesFreeList == if old(regValuesFreeList) == [] then [] else old(regValuesFreeList)[1..]
    {
      if regValuesFreeList != [] {
        var r := regValuesFreeList[0].(uid := recordUid, values := values);
        ReuseRecord(regValuesList, regValuesFreeList, Kept(held), nRecords, r);
        regValuesFreeList, regValuesList := regValuesFreeList[1..], regValuesList + [r];
      } else {
        var r := RegInfo(nRecords, recordUid, values);
        JoinRecord(regValuesList, regValuesFreeList, Kept(held), nRecords, r);
        nRecords, regValuesList := nRecords + 1, regValuesList + [r];
      }
    }

    method PopRegisterValues() returns (rInfo: Option<RegInfo>)
      modifies this`regValuesList
      ensures if old(regValuesList) == [] then rInfo == None && regValuesList == []
              else rInfo == Some(old(regValuesList)[0]) && regValuesList == old(regValuesList)[1..]
    {
      if regValuesList == [] { return None; }
      rInfo := Some(regValuesList[0]);
      regValuesList := regValuesList[1..];
    }

    /** Drops pending records older than `regsUid` and takes the next one, if any. */
    method TakeRegisterValues(regsUid: nat) returns (rInfo: Option<RegInfo>)
      modifies this`regValuesList, this`regValuesFreeList
      ensures (rInfo, regValuesList, regValuesFreeList) ==
              Take(old(regValuesList), old(regValuesFreeList), regsUid)
    {
      rInfo := PopRegisterValues();
      while rInfo != None && rInfo.value.uid < regsUid
        invariant var pending := (if rInfo == None then [] else [rInfo.value]) + regValuesList;
                  Take(pending, regValuesFreeList, regsUid) == Take(old(regValuesList), old(regValuesFreeList), regsUid)
        invariant rInfo == None ==> regValuesList == []
        decreases rInfo != None, |regValuesList|
      {
        assert ([rInfo.value] + regValuesList)[1..] == regValuesList;
        regValuesFreeList := [rInfo.value] + regValuesFreeList;
        rInfo := PopRegisterValues();
      }
      if rInfo != None {
        assert ([rInfo.value] + regValuesList)[1..] == regValuesList;
      }
    }

    /** Records that a node has been linked in at position `k`. */
    ghost method NoteInserted(n: LiveInstruction, k: nat)
      requires k <= |active| && Owned() && FreeChain() && Apart() && n in nodes && n !in free
      requires Mirrors(active, entries) && Holds(active, held)
      requires var order := Insert(active, k, n);
               Chained(order) && head == order[0] && tail == order[|order| - 1]
      modifies this`active, this`entries, this`held
      ensures Shape() && active == Insert(old(active), k, n)
      ensures entries == Insert(old(entries), k, EntryOf(n)) && held == Insert(old(held), k, n.inputRegValues)
    {
      InsertMirrors(active, entries, held, k, n);
      active, entries, held :=
        Insert(active, k, n), Insert(entries, k, EntryOf(n)), Insert(held, k, n.inputRegValues);
    }

    /** Links a node behind the tail. */
    method LinkBehindTail(n: LiveInstruction)
      requires Shape() && n in nodes && n !in active && n !in free
      modifies this`head, this`tail, nodes`next, nodes`prev
      ensures var order := Insert(active, |active|, n);
              Chained(order) && head == order[0] && tail == order[|order| - 1]
      ensures FreeChain() && Mirrors(active, entries) && Holds(active, held)
      ensures EntryOf(n) == old(EntryOf(n))
    {
      hide Mirrors, Holds;
      InsertLast(active, n);
      n.next, n.prev := null, tail;
      if tail == null {
        head := n;
      } else {
        tail.next := n;
      }
      tail := n;
    }

    method Append(n: LiveInstruction, rInfo: Option<RegInfo>)
      requires Shape() && CursorOk() && n in nodes && n !in active && n !in free
      requires Partition(regValuesList, regValuesFreeList, Kept(held + [rInfo]), nRecords)
      modifies this`head, this`tail, this`nextFetch, this`active, this`entries, this`held
      modifies nodes`next, nodes`prev, n`inputRegValues
      ensures Shape() && Conserved() && CursorOk()
      ensures active == old(active) + [n] && entries == old(entries) + [old(EntryOf(n))]
      ensures n.inputRegValues == rInfo && held == old(held) + [rInfo]
    {
      hide Chained, Mirrors, Holds, FreeChain, Disjoint, Partition;
      InsertLast(active, n);
      InsertLast(entries, EntryOf(n));
      InsertLast(held, rInfo);
      n.inputRegValues := rInfo;
      LinkBehindTail(n);
      NoteInserted(n, |active|);
      if nextFetch == null {
        nextFetch := n;
      }
    }

    /** The register values an instruction names; not ok when they did not arrive in order. */
    method RegisterValuesFor(regsUid: nat) returns (ok: bool, rInfo: Option<RegInfo>)
      requires Conserved()
      modifies this`regValuesList, this`regValuesFreeList
      ensures ok <==> regsUid == 0 || NamesPending(old(regValuesList), regsUid)
      ensures (rInfo, regValuesList, regValuesFreeList) ==
              TakeFor(old(regValuesList), old(regValuesFreeList), regsUid)
      ensures Partition(regValuesList, regValuesFreeList, Kept(held + [rInfo]), nRecords)
    {
      ok, rInfo := true, None;
      TakeRecord(regValuesList, regValuesFreeList, Kept(held), nRecords, regsUid);
      TakeIgnoresUnused(regValuesList, regValuesFreeList, [], regsUid);
      if regsUid != 0 {
        rInfo := TakeRegisterValues(regsUid);
        ok := rInfo != None && rInfo.value.uid == regsUid;
      }
      KeptConcat(held, [rInfo]);
      assert Kept(held) + [] == Kept(held);
    }

    /** Appends an instruction from SoftSDV. Null stands for the fatal error raised when the
        register values it names have not arrived in order; the run does not go on from there. */
    method AddInstruction(newInstr: SdvInstr) returns (liveInstr: LiveInstruction?)
      requires Valid()
      modifies this, nodes
      ensures liveInstr == null <==> newInstr.regsUid != 0 && !NamesPending(old(regValuesList), newInstr.regsUid)
      ensures liveInstr != null ==>
        && Valid() && active == old(active) + [liveInstr]
        && Abs() == Add(old(Abs()), newInstr)
        && (liveInstr.inputRegValues, regValuesList, regValuesFreeList) ==
           TakeFor(old(regValuesList), old(regValuesFreeList), newInstr.regsUid)
        && nodes == old(nodes) + {liveInstr} && held == old(held) + [liveInstr.inputRegValues]
        && (if old(free) == [] then fresh(liveInstr) && free == []
            else liveInstr == old(free)[0] && free == old(free)[1..])
    {
      hide Shape, Conserved, CursorAmong, Partition, TakeFor, NamesPending;
      var n := PrepareNode(newInstr, false);
      var ok, rInfo := RegisterValuesFor(newInstr.regsUid);
      if !ok { return null; }
      Append(n, rInfo);
      assert Abs() == Add(old(Abs()), newInstr);
      liveInstr := n;
    }

    lemma LinksAt(k: nat)
      requires ActiveChain() && k < |active|
      ensures active[k].prev == (if k == 0 then null else active[k - 1])
      ensures active[k].next == if k + 1 == |active| then null else active[k + 1]
    {
    }

    /** Links a node in front of the one at position `k`. */
    method LinkBefore(n: LiveInstruction, target: LiveInstruction, ghost k: nat)
      requires Shape() && n in nodes && n !in active && n !in free && k < |active| && active[k] == target
      modifies this`head, nodes`next, nodes`prev
      ensures var order := Insert(active, k, n);
              Chained(order) && head == order[0] && tail == order[|order| - 1]
      ensures FreeChain() && Mirrors(active, entries) && Holds(active, held)
      ensures EntryOf(n) == old(EntryOf(n))
    {
      hide Mirrors, Holds, Insert;
      ghost var order := Insert(active, k, n);
      InsertAt(active, k, n);
      InsertDistinct(active, k, n);
      LinksAt(k);
      n.prev, n.next := target.prev, target;
      target.prev := n;
      if n.prev == null {
        head := n;
      } else {
        n.prev.next := n;
      }
      assert forall i {:trigger order[i].next} | 0 <= i < |order| - 1 :: order[i].next == order[i + 1];
      assert forall i {:trigger order[i].prev} | 0 < i < |order| :: order[i].prev == order[i - 1];
    }

    /** A null cursor moves to the node just inserted at position `k`; any other keeps its node. */
    method CatchCursor(n: LiveInstruction, ghost before: seq<LiveInstruction>, ghost k: nat)
      requires CursorAmong(before) && k <= |before|
      modifies this`nextFetch, this`cursor
      ensures CursorAmong(Insert(before, k, n))
      ensures cursor == if old(cursor) == |before| then k
                        else if old(cursor) >= k then old(cursor) + 1 else old(cursor)
    {
      if nextFetch == null {
        nextFetch := n;
        cursor := k;
      } else if cursor >= k {
        cursor := cursor + 1;
      }
    }

    method InsertNode(n: LiveInstruction, target: LiveInstruction, ghost k: nat)
      requires Shape() && Conserved() && n in nodes && n !in active && n !in free
      requires k < |active| && active[k] == target && n.inputRegValues == None
      modifies this`head, this`active, this`entries, this`held, nodes`next, nodes`prev
      ensures Shape() && Conserved() && active == Insert(old(active), k, n)
      ensures entries == Insert(old(entries), k, old(EntryOf(n))) && held == Insert(old(held), k, None)
    {
      KeptInsertNone(held, k);
      LinkBefore(n, target, k);
      NoteInserted(n, k);
    }

    method InsertBefore(n: LiveInstruction, target: LiveInstruction, ghost k: nat)
      requires Shape() && Conserved() && CursorOk() && n in nodes && n !in active && n !in free
      requires k < |active| && active[k] == target && n.inputRegValues == None
      modifies this`head, this`nextFetch, this`cursor, this`active, this`entries, this`held
      modifies nodes`next, nodes`prev
      ensures Shape() && Conserved() && CursorOk() && active == Insert(old(active), k, n)
      ensures entries == Insert(old(entries), k, old(EntryOf(n))) && held == Insert(old(held), k, None)
      ensures cursor == if old(cursor) == |old(active)| then k
                        else if old(cursor) >= k then old(cursor) + 1 else old(cursor)
    {
      ghost var before := active;
      InsertNode(n, target, k);
      CatchCursor(n, before, k);
    }

    /** Puts a placeholder for an injected instruction in front of a live one. */
    method AddArtificialPlaceHolder(realInstr: LiveInstruction, ghost k: nat) returns (liveInstr: LiveInstruction)
      requires Valid() && k < |active| && active[k] == realInstr
      modifies this, nodes
      ensures Valid() && active == Insert(old(active), k, liveInstr)
      ensures Abs() == AddPlaceHolder(old(Abs()), k)
      ensures regValuesList == old(regValuesList) && regValuesFreeList == old(regValuesFreeList)
      ensures nodes == old(nodes) + {liveInstr} && |held| == |old(held)| + 1 && held == Insert(old(held), k, None)
      ensures if old(free) == [] then fresh(liveInstr) && free == []
              else liveInstr == old(free)[0] && free == old(free)[1..]
    {
      hide Shape, Partition;
      EntryIs(k);
      ghost var after := AddPlaceHolder(Abs(), k);
      liveInstr := PrepareNode(realInstr.instr, true);
      InsertBefore(liveInstr, realInstr, k);
      assert Abs() == after;
    }

    /** Takes the head off the list. */
    method UnlinkHead() returns (n: LiveInstruction)
      requires Shape() && active != []
      modifies this`head, this`tail, this`active, this`entries, this`held, nodes`prev
      ensures Shape() && n == old(active)[0] && n in nodes && n !in active && n !in free
      ensures active == old(active)[1..] && entries == old(entries)[1..] && held == old(held)[1..]
      ensures n.inputRegValues == old(held)[0]
    {
      n := head;
      head := head.next;
      if head == null {
        tail := null;
      } else {
        head.prev := null;
      }
      active, entries, held := active[1..], entries[1..], held[1..];
    }

    /** Retires the head: its node goes to the free list and its record back to theirs. */
    method RetireHead()
      requires Shape() && Conserved() && active != []
      modifies this`head, this`tail, this`freeList, this`free, this`active, this`entries, this`held,
               this`regValuesFreeList, nodes`prev, nodes`next, nodes`inputRegValues
      ensures Shape() && Conserved()
      ensures active == old(active)[1..] && entries == old(entries)[1..] && held == old(held)[1..]
      ensures free == [old(active)[0]] + old(free)
      ensures regValuesFreeList == Kept([old(held)[0]]) + old(regValuesFreeList)
    {
      ReleaseFirst(regValuesList, regValuesFreeList, held, nRecords);
      var n := UnlinkHead();
      DeallocateLiveInstr(n);
    }

    lemma EntryIs(k: nat)
      requires Shape() && k < |active|
      ensures entries[k] == EntryOf(active[k])
    {
    }

    lemma FreeIsNotActive(n: LiveInstruction)
      requires Shape() && n in free
      ensures n !in active
    {
    }

    /** What the head node says, read off the ghost state. */
    lemma HeadIs(j: nat)
      requires Shape() && j < |active|
      ensures head != null && head.implicitCommit == entries[0].implicitCommit
      ensures head.artificialInstr == entries[0].artificial && head.instr == entries[0].instr
      ensures head == active[j] <==> j == 0
    {
      assert entries[0] == EntryOf(active[0]);
    }

    /** Commits `liveInstr` and, implicitly, whatever is in front of it. Counts the implicit
        commits of instructions from SoftSDV, and returns the last tag met (`tag` if none).
        The cursor is not looked at: it stays good exactly when `liveInstr` had been fetched. */
    method RetireThrough(liveInstr: LiveInstruction, tag: int, ghost k: nat)
      returns (numImplicit: nat, lastTag: int)
      requires Shape() && Conserved() && k < |active| && active[k] == liveInstr
      requires forall i | 0 <= i < k :: entries[i].implicitCommit
      modifies this`head, this`tail, this`freeList, this`free, this`active, this`entries, this`held,
               this`regValuesFreeList, nodes`prev, nodes`next, nodes`inputRegValues
      ensures Shape() && Conserved()
      ensures active == old(active)[k + 1..] && entries == old(entries)[k + 1..]
      ensures |held| <= |old(held)| && held == old(held)[|old(held)| - |held|..]
      ensures free == Pushed(old(active)[..k + 1], old(free)) && |active| + |free| == |old(active)| + |old(free)|
      ensures numImplicit == |Reals(old(entries)[..k])|
      ensures lastTag == LastTag(old(entries)[..k + 1], tag)
    {
      hide Shape, Conserved;
      numImplicit, lastTag := 0, tag;
      ghost var j: nat := k;
      HeadIs(j);
      while head != null && head.implicitCommit && head != liveInstr
        invariant j < |active| && active[j] == liveInstr && Shape() && Conserved()
        invariant forall i | 0 <= i < j :: entries[i].implicitCommit
        invariant active[j + 1..] == old(active)[k + 1..] && entries[j + 1..] == old(entries)[k + 1..]
        invariant Pushed(active[..j + 1], free) == Pushed(old(active)[..k + 1], old(free))
        invariant numImplicit + |Reals(entries[..j])| == |Reals(old(entries)[..k])|
        invariant LastTag(entries[..j + 1], lastTag) == LastTag(old(entries)[..k + 1], tag)
        invariant |active| + |free| == |old(active)| + |old(free)|
        invariant |held| <= |old(held)| && held == old(held)[|old(held)| - |held|..]
        decreases |active|
      {
        HeadIs(j);
        DropTake(active, j + 1);
        DropTake(entries, j + 1);
        DropTake(entries, j);
        if !head.artificialInstr {
          numImplicit := numImplicit + 1;
        }
        if head.instr.tag != None {
          lastTag := head.instr.tag.value;
        }
        RetireHead();
        j := j - 1;
      }
      HeadIs(j);
      DropTake(active, 1);
      DropTake(entries, 1);
      if liveInstr.instr.tag != None {
        lastTag := liveInstr.instr.tag.value;
      }
      RetireHead();
    }

    method CommitInstruction(liveInstr: LiveInstruction, tag: int, ghost k: nat)
      returns (numImplicit: nat, lastTag: int)
      requires Valid() && k < |active| && active[k] == liveInstr
      requires nextFetch != liveInstr && InOrder(Abs(), k)
      modifies this`head, this`tail, this`freeList, this`free, this`active, this`entries, this`held, this`cursor,
               this`regValuesFreeList, nodes`prev, nodes`next, nodes`inputRegValues
      ensures Shape() && Conserved()
      ensures active == old(active)[k + 1..] && entries == old(entries)[k + 1..]
      ensures |held| <= |old(held)| && held == old(held)[|old(held)| - |held|..]
      ensures free == Pushed(old(active)[..k + 1], old(free))
      ensures numImplicit == |Reals(old(entries)[..k])|
      ensures lastTag == LastTag(old(entries)[..k + 1], tag)
      ensures old(cursor) > k ==> Valid() && Abs() == Commit(old(Abs()), k)
      ensures old(cursor) <= k ==> nextFetch != null && nextFetch in free && nextFetch !in active
    {
      hide Shape, Partition, Reals, LastTag;
      ghost var before := active;
      numImplicit, lastTag := RetireThrough(liveInstr, tag, k);
      if cursor > k {
        cursor := cursor - (k + 1);
      } else {
        assert nextFetch == before[..k + 1][cursor];
        assert nextFetch in free;
        FreeIsNotActive(nextFetch);
      }
    }

    /** Unlinks the node at position `k`, handing its uid to the node in front of it. */
    method Unlink(liveInstr: LiveInstruction, ghost k: nat)
      requires Shape() && k < |active| && active[k] == liveInstr
      modifies this`head, this`tail, nodes`next, nodes`prev, nodes`uid
      ensures var order := Without(active, k);
              Chained(order) && (order == [] ==> head == null && tail == null) &&
              (order != [] ==> head == order[0] && tail == order[|order| - 1])
      ensures FreeChain() && Mirrors(active, HandUid(entries, k))
    {
      hide Holds, Without;
      EntryIs(k);
      LinksAt(k);
      ghost var order := Without(active, k);
      WithoutDistinct(active, k);
      if head == liveInstr {
        head := liveInstr.next;
      } else {
        liveInstr.prev.next := liveInstr.next;
        liveInstr.prev.uid := liveInstr.uid;
      }
      if tail == liveInstr {
        tail := liveInstr.prev;
      } else {
        liveInstr.next.prev := liveInstr.prev;
      }
      assert forall i {:trigger order[i].next} | 0 <= i < |order| - 1 :: order[i].next == order[i + 1];
      assert forall i {:trigger order[i].prev} | 0 < i < |order| :: order[i].prev == order[i - 1];
    }

    /** Records that the node at position `k` has been unlinked. */
    ghost method NoteRemoved(n: LiveInstruction, k: nat)
      requires Owned() && FreeChain() && Apart() && Distinct(active) && k < |active| == |entries| && active[k] == n
      requires Mirrors(active, HandUid(entries, k)) && Holds(active, held)
      requires var order := Without(active, k);
               Chained(order) && (order == [] ==> head == null && tail == null) &&
               (order != [] ==> head == order[0] && tail == order[|order| - 1])
      modifies this`active, this`entries, this`held
      ensures Shape() && n !in active && n !in free && n.inputRegValues == old(held)[k]
      ensures active == Without(old(active), k) && held == Without(old(held), k)
      ensures entries == Without(HandUid(old(entries), k), k)
    {
      RemoveMirrors(active, HandUid(entries, k), held, k);
      RemoveDisjoint(active, free, k);
      active, entries, held := Without(active, k), Without(HandUid(entries, k), k), Without(held, k);
    }

    method RemoveNode(liveInstr: LiveInstruction, ghost k: nat)
      requires Shape() && k < |active| && active[k] == liveInstr
      modifies this`head, this`tail, this`active, this`entries, this`held, nodes`next, nodes`prev, nodes`uid
      ensures Shape() && liveInstr !in active && liveInstr !in free && liveInstr.inputRegValues == old(held)[k]
      ensures active == Without(old(active), k) && held == Without(old(held), k)
      ensures entries == Without(HandUid(old(entries), k), k)
    {
      Unlink(liveInstr, k);
      NoteRemoved(liveInstr, k);
    }

    /** Moves the cursor off a node that is being deleted. */
    method SkipDeleted(liveInstr: LiveInstruction, ghost k: nat)
      requires ActiveChain() && CursorOk() && k < |active| && active[k] == liveInstr
      modifies this`nextFetch, this`cursor
      ensures CursorAmong(Without(active, k))
      ensures cursor == if old(cursor) > k then old(cursor) - 1 else old(cursor)
    {
      if nextFetch == liveInstr {
        nextFetch := liveInstr.next;
      }
      if cursor > k {
        cursor := cursor - 1;
      }
    }

    /** Takes a node off the list, and off the cursor. */
    method Detach(liveInstr: LiveInstruction, ghost k: nat)
      requires Shape() && CursorOk() && k < |active| && active[k] == liveInstr
      modifies this`head, this`tail, this`nextFetch, this`cursor, this`active, this`entries, this`held,
               nodes`next, nodes`prev, nodes`uid
      ensures Shape() && CursorOk() && Abs() == Delete(old(Abs()), k)
      ensures liveInstr !in active && liveInstr !in free && liveInstr.inputRegValues == old(held)[k]
      ensures active == Without(old(active), k) && held == Without(old(held), k)
    {
      hide Mirrors, Holds, FreeChain, Disjoint;
      ghost var after := Delete(Abs(), k);
      SkipDeleted(liveInstr, k);
      RemoveNode(liveInstr, k);
      assert Abs() == after;
    }

    /** Drops an instruction, for instance one merged into the instruction in front of it. */
    method DeleteInstruction(liveInstr: LiveInstruction, ghost k: nat)
      requires Valid() && k < |active| && active[k] == liveInstr
      modifies this`head, this`tail, this`nextFetch, this`cursor, this`freeList, this`free,
               this`active, this`entries, this`held, this`regValuesFreeList,
               nodes`next, nodes`prev, nodes`uid, nodes`inputRegValues
      ensures Valid() && Abs() == Delete(old(Abs()), k)
      ensures active == Without(old(active), k) && free == [liveInstr] + old(free) && held == Without(old(held), k)
      ensures regValuesFreeList == Kept([old(held)[k]]) + old(regValuesFreeList)
    {
      hide Shape, Partition, Delete;
      ReleaseAt(regValuesList, regValuesFreeList, held, k, nRecords);
      Detach(liveInstr, k);
      DeallocateLiveInstr(liveInstr);
    }

    /** Lets a live instruction be committed implicitly. */
    method SetImplicitCommit(liveInstr: LiveInstruction, ghost k: nat)
      requires Valid() && k < |active| && active[k] == liveInstr
      modifies this`entries, liveInstr`implicitCommit
      ensures Valid() && entries == old(entries)[k := old(entries)[k].(implicitCommit := true)]
    {
      assert entries[k] == EntryOf(liveInstr);
      liveInstr.implicitCommit := true;
      entries := entries[k := entries[k].(implicitCommit := true)];
    }

    /** The next instruction to fetch, artificial or not. */
    method GetNextFetchHandle() returns (fetch: LiveInstruction?)
      requires Valid()
      modifies this`nextFetch, this`cursor
      ensures Valid()
      ensures if old(cursor) == |active| then fetch == null && cursor == old(cursor)
              else fetch == active[old(cursor)] && cursor == old(cursor) + 1
    {
      fetch := nextFetch;
      if fetch != null {
        nextFetch := fetch.next;
        cursor := cursor + 1;
      }
    }

    /** The next instruction from SoftSDV to fetch; placeholders before it are skipped. */
    method GetNextRealFetchHandle() returns (fetch: LiveInstruction?)
      requires Valid()
      modifies this`nextFetch, this`cursor
      ensures Valid()
      ensures var r := NextReal(entries, old(cursor));
              if r == |active| then fetch == null && cursor == old(cursor)
              else fetch == active[r] && cursor == r + 1
    {
      ghost var i := cursor;
      fetch := nextFetch;
      while fetch != null && fetch.artificialInstr
        invariant i <= |active| && fetch == (if i < |active| then active[i] else null)
        invariant NextReal(entries, i) == NextReal(entries, cursor)
        decreases |active| - i
      {
        assert entries[i] == EntryOf(active[i]);
        fetch := fetch.next;
        i := i + 1;
      }
      assert i < |active| ==> entries[i] == EntryOf(active[i]);
      if fetch != null {
        nextFetch := fetch.next;
        cursor := i + 1;
      }
    }

    /** Moves the cursor to a live instruction, at position `k`; null clears it and reports nothing. */
    method SetNextFetch(liveInstr: LiveInstruction?, ghost k: nat) returns (nKilled: int)
      requires Valid() && (liveInstr != null ==> k < |active| && active[k] == liveInstr)
      modifies this`nextFetch, this`cursor
      ensures Valid() && cursor == if liveInstr == null then |active| else k
      ensures nKilled == if liveInstr == null then 0 else Rewound(old(Abs()), k)
    {
      nKilled := 0;
      if liveInstr != null {
        assert entries[k] == EntryOf(liveInstr);
        if nextFetch == null {
          nKilled := uid - liveInstr.uid;
        } else {
          assert entries[cursor] == EntryOf(nextFetch);
          nKilled := nextFetch.uid - liveInstr.uid;
        }
      }
      nextFetch := liveInstr;
      cursor := if liveInstr == null then |active| else k;
    }

    method NUnfetchedQueuedInstrs() returns (n: int)
      requires Valid()
      ensures n == NUnfetched(Abs())
    {
      if nextFetch == null {
        n := 0;
      } else {
        assert entries[cursor] == EntryOf(nextFetch);
        n := uid - nextFetch.uid + 1;
      }
    }
  }
}
