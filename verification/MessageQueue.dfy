/** Message queues: a ring of 32 slots with removal from the middle. */
module MessageQueue {
  import opened LittleEndian

  const MAX_MSGS := 32
  const MAX_MSG_SIZE := 256
  const EINVAL := -22
  const EAGAIN := -11
  const ENOMSG := -42

  /** A slot of the ring; bytes of mtext past msize are left over from earlier messages. */
  datatype Slot = Slot(mtype: int, mtext: seq<Byte>, msize: nat)

  datatype Msg = Msg(mtype: int, text: seq<Byte>)

  predicate SlotOk(s: Slot) {
    |s.mtext| == MAX_MSG_SIZE && s.msize <= MAX_MSG_SIZE
  }

  function Place(head: nat, p: nat): (i: nat)
    ensures i < MAX_MSGS
  {
    (head + p) % MAX_MSGS
  }

  /** The slots in queue order: place p is slot (head + p) % 32. */
  ghost function Ring(ms: seq<Slot>, head: nat, n: nat): (r: seq<Slot>)
    requires |ms| == MAX_MSGS
    ensures |r| == n && forall p :: 0 <= p < n ==> r[p] == ms[Place(head, p)]
  {
    seq(n, p requires 0 <= p < n => ms[Place(head, p)])
  }

  function Read(s: Slot): Msg {
    Msg(s.mtype, if s.msize <= |s.mtext| then s.mtext[..s.msize] else s.mtext)
  }

  ghost function Messages(ring: seq<Slot>): (q: seq<Msg>)
    ensures |q| == |ring| && forall p :: 0 <= p < |q| ==> q[p] == Read(ring[p])
  {
    seq(|ring|, p requires 0 <= p < |ring| => Read(ring[p]))
  }

  lemma PlacesApart(head: nat, p: nat, q: nat)
    requires p < MAX_MSGS && q < MAX_MSGS && Place(head, p) == Place(head, q)
    ensures p == q
  {
  }

  /** Storing at place j of the ring changes that place alone. */
  lemma RingUpdate(ms: seq<Slot>, head: nat, n: nat, j: nat, x: Slot)
    requires |ms| == MAX_MSGS && j < MAX_MSGS && n <= MAX_MSGS
    ensures Ring(ms[Place(head, j) := x], head, n) == if j < n then Ring(ms, head, n)[j := x] else Ring(ms, head, n)
  {
    forall p: nat | p < n && p != j
      ensures Place(head, p) != Place(head, j)
    {
      if Place(head, p) == Place(head, j) { PlacesApart(head, p, j); }
    }
  }

  /** The first message of the type, or the first of all for type 0; |q| if there is none. */
  function FirstOf(q: seq<Msg>, mtype: int, i: nat): (k: nat)
    requires i <= |q|
    ensures i <= k <= |q|
    ensures k < |q| ==> mtype == 0 || q[k].mtype == mtype
    ensures forall j :: i <= j < k ==> mtype != 0 && q[j].mtype != mtype
    decreases |q| - i
  {
    if i == |q| || mtype == 0 || q[i].mtype == mtype then i else FirstOf(q, mtype, i + 1)
  }

  function Without<T>(q: seq<T>, k: nat): seq<T>
    requires k < |q|
  {
    q[..k] + q[k + 1..]
  }

  /** Removal keeps every other message, in order. */
  lemma WithoutKeeps<T>(q: seq<T>, k: nat)
    requires k < |q|
    ensures multiset(Without(q, k)) == multiset(q) - multiset{q[k]}
    ensures forall i, j :: 0 <= i < j < |q| && i != k && j != k ==>
      Without(q, k)[if i < k then i else i - 1] == q[i] && Without(q, k)[if j < k then j else j - 1] == q[j]
  {
    assert q == q[..k] + [q[k]] + q[k + 1..];
  }

  /** The ring with places i..j moved down one over place i. */
  ghost function Shifted(r: seq<Slot>, i: nat, j: nat): (s: seq<Slot>)
    requires i <= j < |r|
    ensures |s| == |r|
  {
    r[..i] + r[i + 1..j + 1] + r[j..]
  }

  lemma ShiftNext(r: seq<Slot>, i: nat, j: nat)
    requires i <= j < |r| - 1
    ensures Shifted(r, i, j)[j + 1] == r[j + 1]
    ensures Shifted(r, i, j)[j := r[j + 1]] == Shifted(r, i, j + 1)
  {
  }

  lemma ShiftEnd(r: seq<Slot>, i: nat)
    requires i < |r|
    ensures Shifted(r, i, |r| - 1)[..|r| - 1] == Without(r, i)
    ensures Messages(Without(r, i)) == Without(Messages(r), i)
    ensures Shifted(r, i, i) == r
  {
  }

  lemma PlaceIs(head: nat, p: nat)
    ensures Place(head, p) == (head + p) % MAX_MSGS
  {
  }

  lemma PlaceNext(head: nat, p: nat)
    ensures (Place(head, p) + 1) % MAX_MSGS == Place(head, p + 1)
  {
  }

  lemma PlaceBack(head: nat, p: nat)
    requires p > 0
    ensures Place(head, p - 1) == if Place(head, p) > 0 then Place(head, p) - 1 else MAX_MSGS - 1
  {
  }

  class MsgQueue {
    const messages: array<Slot>
    var head: nat
    var tail: nat
    var count: nat
    var inUse: bool

    ghost predicate Valid()
      reads this, messages
    {
      && messages.Length == MAX_MSGS && head < MAX_MSGS && count <= MAX_MSGS
      && tail == (head + count) % MAX_MSGS
      && forall p :: 0 <= p < MAX_MSGS ==> SlotOk(messages[p])
    }

    ghost function Contents(): seq<Msg>
      requires messages.Length == MAX_MSGS
      reads this, messages
    {
      Messages(Ring(messages[..], head, count))
    }

    constructor ()
      ensures Valid() && fresh(messages) && inUse && Contents() == []
    {
      messages := new Slot[MAX_MSGS](_ => Slot(0, seq(MAX_MSG_SIZE, _ => 0), 0));
      head, tail, count, inUse := 0, 0, 0, true;
    }

    /** msgq_send. */
    method Send(text: seq<Byte>, mtype: int) returns (r: int)
      requires Valid()
      modifies this, messages
      ensures Valid() && head == old(head) && inUse == old(inUse)
      ensures r == if |text| > 256 || !inUse then -22 else if |old(Contents())| == 32 then -11 else 0
      ensures Contents() == if r == 0 then old(Contents()) + [Msg(mtype, text)] else old(Contents())
    {
      if |text| > MAX_MSG_SIZE || !inUse { return EINVAL; }
      if count >= MAX_MSGS { return EAGAIN; }
      var slot := Slot(mtype, text + messages[tail].mtext[|text|..], |text|);
      Enqueue(slot);
      assert slot.mtext[..|text|] == text;
      return 0;
    }

    method Enqueue(slot: Slot)
      requires Valid() && count < MAX_MSGS && SlotOk(slot)
      modifies this, messages
      ensures Valid() && head == old(head) && inUse == old(inUse)
      ensures Contents() == old(Contents()) + [Read(slot)]
    {
      hide Place, Read;
      ghost var ms, n := messages[..], count;
      RingUpdate(ms, head, n + 1, n, slot);
      PlaceNext(head, n);
      assert tail == Place(head, n) by { PlaceIs(head, n); }
      messages[tail] := slot;
      assert messages[..] == ms[Place(head, n) := slot];
      tail := (tail + 1) % MAX_MSGS;
      count := count + 1;
      assert Ring(messages[..], head, count) == Ring(ms, head, n) + [slot];
      PlaceIs(head, count);
    }

    /** msgq_receive into a buffer with room for size bytes. */
    method Receive(buffer: array<Byte>, size: nat, mtype: int) returns (r: int)
      requires Valid() && size <= buffer.Length
      modifies this, messages, buffer
      ensures Valid() && head == old(head) && inUse == old(inUse)
      ensures var q := old(Contents()); var k := FirstOf(q, mtype, 0);
        if !inUse || k == |q| then
          r == (if !inUse then -22 else if q == [] then -11 else -42) && Contents() == q
            && buffer[..] == old(buffer[..])
        else
          && r == (if |q[k].text| < size then |q[k].text| else size)
          && buffer[..] == q[k].text[..r] + old(buffer[..])[r..]
          && Contents() == q[..k] + q[k + 1..] == Without(q, k)
    {
      if !inUse { return EINVAL; }
      if count == 0 { return EAGAIN; }
      ghost var q := Contents();
      var i := 0;
      while i < count
        invariant i <= count && FirstOf(q, mtype, i) == FirstOf(q, mtype, 0)
        invariant Valid() && messages[..] == old(messages[..]) && buffer[..] == old(buffer[..])
        invariant head == old(head) && count == old(count) && inUse
      {
        var slot := messages[Place(head, i)];
        assert q[i] == Read(slot);
        if mtype == 0 || slot.mtype == mtype {
          var n := if slot.msize < size then slot.msize else size;
          CopyOut(buffer, slot.mtext, n);
          assert slot.mtext[..n] == q[i].text[..n];
          Remove(i);
          return n;
        }
        i := i + 1;
      }
      return ENOMSG;
    }

    method CopyOut(buffer: array<Byte>, text: seq<Byte>, n: nat)
      requires n <= buffer.Length && n <= |text|
      modifies buffer
      ensures buffer[..] == text[..n] + old(buffer[..])[n..]
    {
      for k := 0 to n
        invariant forall m :: 0 <= m < buffer.Length ==> buffer[m] == if m < k then text[m] else old(buffer[m])
      {
        buffer[k] := text[k];
      }
    }

    /** The circular shift that closes the gap at place i, and the tail moved back. */
    method Remove(i: nat)
      requires Valid() && i < count
      modifies this, messages
      ensures Valid() && head == old(head) && inUse == old(inUse)
      ensures Contents() == Without(old(Contents()), i)
    {
      hide Place, Read, Shifted, Messages, SlotOk;
      ghost var r := Ring(messages[..], head, count);
      PlaceIs(head, count);
      PlaceIs(head, count - 1);
      PlaceBack(head, count);
      ShiftEnd(r, i);
      var j := i;
      while j < count - 1
        invariant i <= j <= count - 1 && head == old(head) && count == old(count) && inUse == old(inUse)
          && tail == old(tail)
        invariant Valid() && Ring(messages[..], head, count) == Shifted(r, i, j)
      {
        MoveDown(j);
        ShiftNext(r, i, j);
        j := j + 1;
      }
      count := count - 1;
      tail := if tail > 0 then tail - 1 else MAX_MSGS - 1;
      assert Ring(messages[..], head, count) == Shifted(r, i, j)[..count];
    }

    method MoveDown(j: nat)
      requires Valid() && j + 1 < count
      modifies messages
      ensures Valid()
      ensures var r := Ring(old(messages[..]), head, count); Ring(messages[..], head, count) == r[j := r[j + 1]]
    {
      hide Place, SlotOk;
      ghost var ms := messages[..];
      var src, dst := Place(head, j + 1), Place(head, j);
      RingUpdate(ms, head, count, j, ms[src]);
      messages[dst] := messages[src];
      assert messages[..] == ms[dst := ms[src]];
    }
  }
}
