/**
 The SoftSDV replay buffer as a value: the active instructions in list order and
 the position of the next one to fetch. ReplayBuffer shows that the linked list
 (feeders/inst/softsdv/softsdv_replay.cpp) behaves like this value.
 */
module ReplaySpec {
  import opened Sequences
  import opened Wrappers

  /** What the buffer needs to know of an instruction received from SoftSDV. */
  datatype SdvInstr = SdvInstr(
    addrVirtual: nat,
    regsUid: nat,            // 0 when no register values come with it
    newSequence: bool,
    interrupt: bool,
    tag: Option<int>)

  datatype Entry = Entry(instr: SdvInstr, uid: nat, implicitCommit: bool, artificial: bool)

  /** `cursor == |entries|` stands for a null fetch pointer. */
  datatype Replay = Replay(entries: seq<Entry>, cursor: nat, uid: nat)

  function Insert<T>(s: seq<T>, k: nat, x: T): (r: seq<T>)
    requires k <= |s|
    ensures |r| == |s| + 1 && r[k] == x
  {
    s[..k] + [x] + s[k..]
  }

  predicate WellFormed(b: Replay) {
    b.cursor <= |b.entries|
  }

  function Add(b: Replay, instr: SdvInstr): Replay {
    Replay(b.entries + [Entry(instr, b.uid + 1, false, false)], b.cursor, b.uid + 1)
  }

  /** A placeholder goes in front of entry `k`. A null cursor is moved onto it; any other
      cursor stays with its instruction. */
  function AddPlaceHolder(b: Replay, k: nat): Replay
    requires WellFormed(b) && k < |b.entries|
  {
    Replay(Insert(b.entries, k, Entry(b.entries[k].instr, b.uid + 1, true, true)),
           if b.cursor == |b.entries| then k else if b.cursor >= k then b.cursor + 1 else b.cursor,
           b.uid + 1)
  }

  /** The first instruction from SoftSDV at or after position `i`. */
  function NextReal(entries: seq<Entry>, i: nat): (r: nat)
    requires i <= |entries|
    ensures i <= r <= |entries|
    ensures forall j | i <= j < r :: entries[j].artificial
    ensures r < |entries| ==> !entries[r].artificial
    decreases |entries| - i
  {
    if i < |entries| && entries[i].artificial then NextReal(entries, i + 1) else i
  }

  /** Instructions from SoftSDV among the entries, in list order. */
  function Reals(entries: seq<Entry>): seq<SdvInstr> {
    if entries == [] then []
    else if entries[0].artificial then Reals(entries[1..])
    else [entries[0].instr] + Reals(entries[1..])
  }

  /** The value of the last tagged instruction among the entries, or the value before. */
  function LastTag(entries: seq<Entry>, tag: int): int {
    if entries == [] then tag
    else LastTag(entries[1..], if entries[0].instr.tag == None then tag else entries[0].instr.tag.value)
  }

  lemma {:induction false} NoTags(entries: seq<Entry>, tag: int)
    requires forall i | 0 <= i < |entries| :: entries[i].instr.tag == None
    ensures LastTag(entries, tag) == tag
    decreases |entries|
  {
    if entries != [] {
      NoTags(entries[1..], tag);
    }
  }

  /** It is the value of the latest instruction that has one. */
  lemma {:induction false} LastTagIs(entries: seq<Entry>, tag: int, k: nat)
    requires k < |entries| && entries[k].instr.tag != None
    requires forall i | k < i < |entries| :: entries[i].instr.tag == None
    ensures LastTag(entries, tag) == entries[k].instr.tag.value
    decreases |entries|
  {
    var next := if entries[0].instr.tag == None then tag else entries[0].instr.tag.value;
    if k == 0 {
      NoTags(entries[1..], next);
    } else {
      LastTagIs(entries[1..], next, k - 1);
    }
  }

  /** An in-order commit of entry `k`: everything before it must commit implicitly. */
  predicate InOrder(b: Replay, k: nat) {
    k < |b.entries| && forall i | 0 <= i < k :: b.entries[i].implicitCommit
  }

  function Commit(b: Replay, k: nat): Replay
    requires k < b.cursor <= |b.entries|
  {
    Replay(b.entries[k + 1..], b.cursor - (k + 1), b.uid)
  }

  /** Entries once entry `k` has handed its uid to the one in front of it. */
  function HandUid(entries: seq<Entry>, k: nat): seq<Entry>
    requires k < |entries|
  {
    if k == 0 then entries else entries[k - 1 := entries[k - 1].(uid := entries[k].uid)]
  }

  function Delete(b: Replay, k: nat): Replay
    requires WellFormed(b) && k < |b.entries|
  {
    Replay(Without(HandUid(b.entries, k), k), if b.cursor > k then b.cursor - 1 else b.cursor, b.uid)
  }

  /** An instruction that arrives is the last of the list and the newest, is not from the feeder itself
      and blocks commits behind it; a placeholder is as new, and blocks none. What was there stays, and
      the cursor on what it was on; a null cursor comes onto the new entry. */
  lemma NewEntries(b: Replay, instr: SdvInstr, k: nat)
    requires WellFormed(b) && k < |b.entries|
    ensures var c, n := Add(b, instr), |b.entries|;
      && c.entries[..n] == b.entries && |c.entries| == n + 1 && c.entries[n].instr == instr
      && c.entries[n].uid == c.uid == b.uid + 1 && !c.entries[n].implicitCommit && !c.entries[n].artificial
      && c.cursor == b.cursor
    ensures var c := AddPlaceHolder(b, k);
      && Without(c.entries, k) == b.entries && c.entries[k].instr == b.entries[k].instr
      && c.entries[k].uid == c.uid == b.uid + 1 && c.entries[k].implicitCommit && c.entries[k].artificial
      && (if b.cursor == |b.entries| then c.cursor == k
          else c.cursor < |c.entries| && c.entries[c.cursor] == b.entries[b.cursor] && c.cursor != k)
  {
    assert Without(AddPlaceHolder(b, k).entries, k) == b.entries;
  }

  /** A deletion takes out one entry, whose uid the one in front takes over; the cursor stays on what it
      was on, or comes onto the next when that is deleted. */
  lemma DeleteTakesOne(b: Replay, k: nat)
    requires WellFormed(b) && k < |b.entries|
    ensures var c := Delete(b, k);
      && |c.entries| == |b.entries| - 1 && c.uid == b.uid
      && (forall i | 0 <= i < |c.entries| ::
            var e := b.entries[if i < k then i else i + 1];
            c.entries[i] == if i + 1 == k then e.(uid := b.entries[k].uid) else e)
      && c.cursor == if b.cursor <= k then b.cursor else b.cursor - 1
  {
  }

  /** The number SetNextFetch reports (a 64-bit unsigned difference in the source). */
  function Rewound(b: Replay, k: nat): int
    requires WellFormed(b) && k < |b.entries|
  {
    (if b.cursor == |b.entries| then b.uid else b.entries[b.cursor].uid) - b.entries[k].uid
  }

  function NUnfetched(b: Replay): int
    requires WellFormed(b)
  {
    if b.cursor == |b.entries| then 0 else b.uid - b.entries[b.cursor].uid + 1
  }
}
