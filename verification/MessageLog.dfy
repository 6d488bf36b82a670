/**
 The SDEI message log: a buffer of fixed-size records that doubles when full, written by pal_print
 and drained by the reader of the proc file, who zeroes what has been delivered.
 */
module MessageLog {

  /** The text of one record. */
  type Msg = string

  /** One record slot: zeroed, a message, or whatever the allocator left there. */
  datatype Slot = Zero | Full(msg: Msg) | Stale(word: int)

  /** tail counts the records written since the last wrap; pos is the reader's file offset in records. */
  datatype Log = Log(buf: seq<Slot>, tail: nat, pos: nat)

  const MIN_NUM_MSG: nat := 20

  /** Outcome of the allocation: no memory, or a buffer with these contents. */
  datatype Alloc = NoMemory | Fresh(leftover: seq<Slot>)

  datatype Event = Append(msg: Msg, alloc: Alloc) | Read

  /** The log after sdei_init allocated the first buffer. */
  predicate Initial(s: Log) { |s.buf| == MIN_NUM_MSG && s.tail == 0 && s.pos == 0 }

  predicate Grows(s: Log, e: Event) { e.Append? && s.tail >= |s.buf| && e.alloc.Fresh? }

  /** The growth that fails sends the writer back to the start of the buffer. */
  predicate Wraps(s: Log, e: Event) { e.Append? && s.tail >= |s.buf| && e.alloc.NoMemory? }

  /** Where the next record goes. */
  function WriteIndex(s: Log, e: Event): (i: nat)
    requires |s.buf| > 0
    ensures !Wraps(s, e) ==> i == s.tail
    ensures Wraps(s, e) && s.tail == |s.buf| ==> i == 0
  {
    if Wraps(s, e) then s.tail % |s.buf| else s.tail
  }

  /** The second half of a new buffer of 2 * n records. */
  function Upper(leftover: seq<Slot>, n: nat): (b: seq<Slot>)
    ensures |b| == n
  {
    if |leftover| == 2 * n then leftover[n..] else seq(n, _ => Zero)
  }

  function Grown(s: Log, e: Event): (b: seq<Slot>)
    ensures |b| == if Grows(s, e) then 2 * |s.buf| else |s.buf|
  {
    if Grows(s, e) then s.buf + Upper(e.alloc.leftover, |s.buf|) else s.buf
  }

  ghost predicate Inv(s: Log) { 0 < |s.buf| && s.tail <= |s.buf| && s.pos <= |s.buf| }

  /** The reader finds a record: it is not at the writer's position and not at the end of the buffer. */
  predicate Delivers(s: Log) { s.pos != s.tail && s.pos < |s.buf| }

  function Step(s: Log, e: Event): (r: Log)
    requires Inv(s)
    ensures Inv(r)
  {
    match e
    case Append(m, _) =>
      var i, b := WriteIndex(s, e), Grown(s, e);
      s.(buf := b[i := Full(m)], tail := i + 1)
    case Read =>
      if Delivers(s) then s.(buf := s.buf[s.pos := Zero], pos := s.pos + 1) else s
  }

  // ------------------------------------------------------------------ runs

  ghost function Run(s: Log, es: seq<Event>, k: nat): (r: Log)
    requires Inv(s) && k <= |es|
    ensures Inv(r)
  {
    if k == 0 then s else Step(Run(s, es, k - 1), es[k - 1])
  }

  /** Messages appended by the first k events. */
  ghost function Appended(es: seq<Event>, k: nat): seq<Msg>
    requires k <= |es|
  {
    if k == 0 then [] else if es[k - 1].Append? then Appended(es, k - 1) + [es[k - 1].msg] else Appended(es, k - 1)
  }

  /** Records handed to the reader by the first k events. */
  ghost function Delivered(s: Log, es: seq<Event>, k: nat): seq<Slot>
    requires Inv(s) && k <= |es|
  {
    if k == 0 then []
    else
      var before := Run(s, es, k - 1);
      if es[k - 1].Read? && Delivers(before) then Delivered(s, es, k - 1) + [before.buf[before.pos]]
        else Delivered(s, es, k - 1)
  }

  /** Records copied from buffer to buffer by the first k events. */
  ghost function Copied(s: Log, es: seq<Event>, k: nat): nat
    requires Inv(s) && k <= |es|
  {
    if k == 0 then 0
    else Copied(s, es, k - 1) + if Grows(Run(s, es, k - 1), es[k - 1]) then |Run(s, es, k - 1).buf| else 0
  }

  /** No growth fails during the first k events. */
  ghost predicate NoWrap(s: Log, es: seq<Event>, k: nat)
    requires Inv(s) && k <= |es|
  {
    k == 0 || (NoWrap(s, es, k - 1) && !Wraps(Run(s, es, k - 1), es[k - 1]))
  }

  /** Slots below pos are zero, slots from pos to tail hold the messages in order. */
  ghost predicate Holds(s: Log, sent: seq<Msg>) {
    && s.tail == |sent| && s.pos <= s.tail <= |s.buf|
    && (forall i :: 0 <= i < s.pos ==> s.buf[i] == Zero)
    && (forall i :: s.pos <= i < s.tail ==> s.buf[i] == Full(sent[i]))
  }

  /** One event keeps the relation between buffer and messages. */
  lemma {:induction false} HoldsStep(s: Log, sent: seq<Msg>, e: Event)
    requires Inv(s) && Holds(s, sent) && !Wraps(s, e)
    ensures Holds(Step(s, e), if e.Append? then sent + [e.msg] else sent)
    ensures Delivers(s) ==> s.pos < |sent| && s.buf[s.pos] == Full(sent[s.pos])
  {
    var r := Step(s, e);
    if e.Append? {
      var b := Grown(s, e);
      assert forall i :: 0 <= i < s.tail ==> r.buf[i] == b[i] == s.buf[i];
    }
  }

  /** The records delivered so far are the first n messages. */
  ghost predicate InOrder(got: seq<Slot>, sent: seq<Msg>, n: nat) {
    |got| == n <= |sent| && forall i :: 0 <= i < n ==> got[i] == Full(sent[i])
  }

  lemma {:induction false} OrderStep(s: Log, sent: seq<Msg>, got: seq<Slot>, e: Event)
    requires Inv(s) && Holds(s, sent) && InOrder(got, sent, s.pos) && !Wraps(s, e)
    ensures InOrder(if e.Read? && Delivers(s) then got + [s.buf[s.pos]] else got, if e.Append? then sent + [e.msg]
            else sent, Step(s, e).pos)
  {}

  /**
   Delivery. From a fresh log and with no failed growth, after any interleaving of appends and reads
   the records delivered are the first pos messages appended, in order; what was delivered is zeroed,
   and what was not is intact, however often the buffer grew.
   */
  lemma {:induction false} Delivery(s: Log, es: seq<Event>, k: nat)
    requires |s.buf| > 0 && s.tail == 0 && s.pos == 0 && k <= |es| && NoWrap(s, es, k)
    ensures Holds(Run(s, es, k), Appended(es, k))
    ensures InOrder(Delivered(s, es, k), Appended(es, k), Run(s, es, k).pos)
    decreases k
  {
    if k > 0 {
      hide Step;
      Delivery(s, es, k - 1);
      HoldsStep(Run(s, es, k - 1), Appended(es, k - 1), es[k - 1]);
      OrderStep(Run(s, es, k - 1), Appended(es, k - 1), Delivered(s, es, k - 1), es[k - 1]);
      hide Holds;
      hide InOrder;
    }
  }

  // ------------------------------------------------------------------ nothing waits for ever

  /**
   Over every run without a failed growth the next read delivers exactly if fewer records were delivered than
   appended.
   */
  lemma {:induction false} ReadDeliversIff(s: Log, es: seq<Event>, k: nat)
    requires |s.buf| > 0 && s.tail == 0 && s.pos == 0 && k <= |es| && NoWrap(s, es, k)
    ensures Delivers(Run(s, es, k)) <==> |Delivered(s, es, k)| < |Appended(es, k)|
  {
    Delivery(s, es, k);
  }

  function Min(a: nat, b: nat): nat { if a < b then a else b }

  /** Events k to e are reads. */
  predicate Reads(es: seq<Event>, k: nat, e: nat) { k <= e <= |es| && forall i :: k <= i < e ==> es[i].Read? }

  lemma {:induction false} ReadsNoWrap(s: Log, es: seq<Event>, k: nat, e: nat)
    requires Inv(s) && Reads(es, k, e) && NoWrap(s, es, k)
    ensures NoWrap(s, es, e) && Appended(es, e) == Appended(es, k)
    decreases e
  {
    hide Step;
    if k < e { ReadsNoWrap(s, es, k, e - 1); }
  }

  lemma {:induction false} ReadsInOrder(s: Log, es: seq<Event>, k: nat, e: nat)
    requires |s.buf| > 0 && s.tail == 0 && s.pos == 0 && Reads(es, k, e) && NoWrap(s, es, k)
    ensures InOrder(Delivered(s, es, e), Appended(es, k), |Delivered(s, es, e)|)
    ensures |Delivered(s, es, e)| <= |Appended(es, k)|
  {
    hide Step, WriteIndex;
    ReadsNoWrap(s, es, k, e);
    Delivery(s, es, e);
  }

  /** So reads after such a run deliver one more record each until all are delivered. */
  lemma {:induction false} ReadsDrain(s: Log, es: seq<Event>, k: nat, e: nat)
    requires |s.buf| > 0 && s.tail == 0 && s.pos == 0 && Reads(es, k, e) && NoWrap(s, es, k)
    ensures |Delivered(s, es, e)| == Min(|Delivered(s, es, k)| + (e - k), |Appended(es, k)|)
    ensures InOrder(Delivered(s, es, e), Appended(es, k), |Delivered(s, es, e)|)
    decreases e
  {
    hide Step, WriteIndex, Wraps, Grows, Grown, Delivers, Holds, InOrder, Run, Delivered, Appended, NoWrap;
    ReadsInOrder(s, es, k, e);
    if k < e {
      var last: nat := e - 1;
      ReadsDrain(s, es, k, last);
      ReadsNoWrap(s, es, k, last);
      ReadStep(s, es, last);
      MinStep(|Delivered(s, es, k)| + (last - k), |Appended(es, k)|);
    }
    hide *;
  }

  lemma {:induction false} MinStep(a: nat, b: nat)
    ensures Min(Min(a, b) + 1, b) == Min(a + 1, b) && (a <= b ==> Min(a, b) == a)
  {}

  lemma {:induction false} ReadStep(s: Log, es: seq<Event>, k: nat)
    requires |s.buf| > 0 && s.tail == 0 && s.pos == 0 && k < |es| && NoWrap(s, es, k) && es[k].Read?
    ensures |Delivered(s, es, k + 1)| == Min(|Delivered(s, es, k)| + 1, |Appended(es, k)|)
  {
    hide Step;
    ReadDeliversIff(s, es, k);
    Delivery(s, es, k);
  }

  lemma {:induction false} AppendsOnly(es: seq<Event>, m: nat)
    requires m <= |es| && forall i :: 0 <= i < m ==> es[i].Append?
    ensures |Appended(es, m)| == m && forall i :: 0 <= i < m ==> Appended(es, m)[i] == es[i].msg
  {
    if m > 0 { AppendsOnly(es, m - 1); }
  }

  lemma {:induction false} NoneDelivered(s: Log, es: seq<Event>, m: nat)
    requires Inv(s) && m <= |es| && forall i :: 0 <= i < m ==> es[i].Append?
    ensures Delivered(s, es, m) == []
  {
    if m > 0 { NoneDelivered(s, es, m - 1); }
  }

  /** From a fresh log m appends and then n reads deliver the first min(m, n) messages, in order. */
  lemma {:induction false} AppendsThenReads(s: Log, es: seq<Event>, m: nat, n: nat)
    requires Initial(s) && Reads(es, m, m + n) && NoWrap(s, es, m) && forall i :: 0 <= i < m ==> es[i].Append?
    ensures |Delivered(s, es, m + n)| == Min(m, n)
    ensures forall i :: 0 <= i < Min(m, n) ==> Delivered(s, es, m + n)[i] == Full(es[i].msg)
  {
    hide Step, WriteIndex, Wraps, Grows, Grown, Delivers, Holds;
    AppendsOnly(es, m);
    NoneDelivered(s, es, m);
    ReadsDrain(s, es, m, m + n);
    hide Delivered, Appended, NoWrap;
  }

  /** Twenty doubled once per growth. */
  function Capacity(growths: nat): nat { if growths == 0 then MIN_NUM_MSG else 2 * Capacity(growths - 1) }

  lemma {:induction false} CapacityDoubles(n: nat)
    ensures Capacity(n + 1) == 2 * Capacity(n)
  {
  }

  /** Number of successful growths. */
  ghost function Growths(s: Log, es: seq<Event>, k: nat): nat
    requires Inv(s) && k <= |es|
  {
    if k == 0 then 0 else Growths(s, es, k - 1) + if Grows(Run(s, es, k - 1), es[k - 1]) then 1 else 0
  }

  lemma {:induction false} StepCapacity(s: Log, e: Event)
    requires Inv(s)
    ensures |Step(s, e).buf| == if Grows(s, e) then 2 * |s.buf| else |s.buf|
  {}

  /** One more event, in terms of the log before it. */
  lemma {:induction false} RunCapacity(s: Log, es: seq<Event>, k: nat)
    requires Inv(s) && k < |es|
    ensures var was, e := Run(s, es, k), es[k];
            && |Run(s, es, k + 1).buf| == (if Grows(was, e) then 2 * |was.buf| else |was.buf|)
            && Growths(s, es, k + 1) == Growths(s, es, k) + (if Grows(was, e) then 1 else 0)
            && Copied(s, es, k + 1) == Copied(s, es, k) + (if Grows(was, e) then |was.buf| else 0)
  {
    StepCapacity(Run(s, es, k), es[k]);
    hide Step;
  }

  /**
   Growth. Failed or not, the capacity is the initial one doubled once per successful growth, and all
   the copying ever done adds up to the capacity gained, so each append costs a constant on average.
   */
  lemma {:induction false} GrowthCost(s: Log, es: seq<Event>, k: nat)
    requires Initial(s) && k <= |es|
    ensures |Run(s, es, k).buf| == Capacity(Growths(s, es, k))
    ensures Copied(s, es, k) == |Run(s, es, k).buf| - MIN_NUM_MSG
    decreases k
  {
    hide *;
    GrowthStart(s, es);
    if k > 0 {
      GrowthCost(s, es, k - 1);
      RunCapacity(s, es, k - 1);
      CapacityDoubles(Growths(s, es, k - 1));
    }
  }

  lemma {:induction false} GrowthStart(s: Log, es: seq<Event>)
    requires Initial(s)
    ensures Inv(s) && |Run(s, es, 0).buf| == Capacity(Growths(s, es, 0)) == MIN_NUM_MSG && Copied(s, es, 0) == 0
  {}

  /**
   Without a failed growth the capacity is no larger than needed: all messages have a slot, and if the buffer
   grew at all more than half of the slots are taken.
   */
  lemma {:induction false} CapacityIsLeast(s: Log, es: seq<Event>, k: nat)
    requires Initial(s) && k <= |es| && NoWrap(s, es, k)
    ensures |Appended(es, k)| <= |Run(s, es, k).buf|
    ensures |Run(s, es, k).buf| == 20 || 2 * |Appended(es, k)| > |Run(s, es, k).buf|
    decreases k
  {
    if k > 0 {
      CapacityIsLeast(s, es, k - 1);
      Delivery(s, es, k - 1);
      StepCapacity(Run(s, es, k - 1), es[k - 1]);
      Delivery(s, es, k);
      hide Step;
    }
  }

  /** The messages appended since the growth that last failed (or since the start), up to event k. */
  ghost function Since(s: Log, es: seq<Event>, k: nat): seq<Msg>
    requires Inv(s) && k <= |es|
  {
    if k == 0 then []
    else if !es[k - 1].Append? then Since(s, es, k - 1)
    else if Wraps(Run(s, es, k - 1), es[k - 1]) then [es[k - 1].msg]
    else Since(s, es, k - 1) + [es[k - 1].msg]
  }

  ghost predicate HoldsSince(s: Log, m: seq<Msg>) {
    s.tail == |m| <= |s.buf| && forall i :: 0 <= i < s.tail ==>
      s.buf[i] == Full(m[i]) || (s.buf[i] == Zero && i < s.pos)
  }

  lemma {:induction false} SinceStep(s: Log, m: seq<Msg>, e: Event)
    requires Inv(s) && HoldsSince(s, m)
    ensures HoldsSince(Step(s, e), if !e.Append? then m else if Wraps(s, e) then [e.msg] else m + [e.msg])
    ensures e.Append? ==> WriteIndex(s, e) < |Grown(s, e)|
  {
    hide WriteIndex;
  }

  /**
   Whatever allocations fail, the first tail slots are the messages since the last failure, except
   that those the reader has taken are zero; and every write stays inside the buffer.
   */
  lemma {:induction false} TailHoldsSince(s: Log, es: seq<Event>, k: nat)
    requires |s.buf| > 0 && s.tail == 0 && s.pos == 0 && k <= |es|
    ensures HoldsSince(Run(s, es, k), Since(s, es, k))
    ensures k < |es| && es[k].Append? ==> WriteIndex(Run(s, es, k), es[k]) < |Grown(Run(s, es, k), es[k])|
    decreases k
  {
    if k > 0 {
      TailHoldsSince(s, es, k - 1);
      SinceStep(Run(s, es, k - 1), Since(s, es, k - 1), es[k - 1]);
    }
    if k < |es| { SinceStep(Run(s, es, k), Since(s, es, k), es[k]); }
  }

  /**
   What a failed growth does to a reader that has taken pos of the messages: the next read gives the
   next message exactly if at least two but not all have been taken; with none taken it gives the newest
   message first, and otherwise it gives nothing although a message is waiting.
   */
  lemma {:induction false} AfterFailedGrowth(s: Log, sent: seq<Msg>, m: Msg)
    requires Inv(s) && Holds(s, sent) && s.tail == |s.buf| > 1
    ensures var r := Step(s, Append(m, NoMemory));
            && (2 <= s.pos < s.tail ==> Delivers(r) && r.buf[r.pos] == Full(sent[r.pos]))
            && (s.pos == 0 ==> Delivers(r) && r.buf[r.pos] == Full(m))
            && (s.pos == 1 || s.pos == s.tail ==> !Delivers(r))
  {
    assert s.tail % |s.buf| == 0;
  }

  // ------------------------------------------------------------------ the writer and the reader

  /** The globals of the log: buffer, capacity and tail. The reader's offset belongs to its open file. */
  class MessageBuffer {
    var buf: array<Slot>
    var numMsg: nat
    var tail: nat

    ghost predicate Valid()
      reads this
    {
      0 < numMsg == buf.Length && tail <= numMsg
    }

    ghost function View(pos: nat): Log
      reads this, buf
    {
      Log(buf[..], tail, pos)
    }

    /** sdei_init: the first buffer, as allocated. */
    constructor (first: array<Slot>)
      requires first.Length == MIN_NUM_MSG
      ensures Valid() && buf == first && Initial(View(0))
    {
      buf := first;
      numMsg := MIN_NUM_MSG;
      tail := 0;
    }

    /**
     pal_print: messages above the print level are dropped; otherwise one record is written. tmp is
     what the allocator returns if it is asked.
     */
    method Print(verbosity: nat, level: nat, msg: Msg, tmp: array?<Slot>, ghost pos: nat)
      requires Valid() && pos <= numMsg
      requires tmp != null ==> tmp != buf && tmp.Length == 2 * numMsg
      modifies this, buf, tmp
      ensures Valid() && (buf == old(buf) || buf == tmp)
      ensures var alloc := if tmp == null then NoMemory else Fresh(old(tmp[..]));
              View(pos) == if verbosity <= level then Step(old(View(pos)), Append(msg, alloc)) else old(View(pos))
    {
      if verbosity <= level {
        ghost var s, e := View(pos), Append(msg, if tmp == null then NoMemory else Fresh(tmp[..]));
        if tail >= numMsg {
          if tmp != null {
            Copy(tmp);
            numMsg := 2 * numMsg;
            buf := tmp;
          } else {
            tail := tail % numMsg;
          }
        }
        assert buf[..] == Grown(s, e) && tail == WriteIndex(s, e);
        buf[tail] := Full(msg);
        assert buf[..] == Grown(s, e)[tail := Full(msg)];
        tail := tail + 1;
      }
    }

    /** The memcpy of the old records into the new buffer. */
    method Copy(tmp: array<Slot>)
      requires Valid() && tmp != buf && tmp.Length == 2 * numMsg
      modifies tmp
      ensures tmp[..] == buf[..] + old(tmp[..])[numMsg..]
    {
      var i := 0;
      while i < numMsg
        invariant i <= numMsg
        invariant forall k :: 0 <= k < i ==> tmp[k] == buf[k]
        invariant forall k :: i <= k < tmp.Length ==> tmp[k] == old(tmp[k])
      {
        tmp[i] := buf[i];
        i := i + 1;
      }
    }

    /** sdei_msg_proc_read on a file at record pos: the record delivered, if any, and the new offset. */
    method ReadRecord(pos: nat) returns (got: seq<Slot>, next: nat)
      requires Valid() && pos <= numMsg
      modifies buf
      ensures Valid() && next <= numMsg
      ensures View(next) == Step(old(View(pos)), Read)
      ensures got == if Delivers(old(View(pos))) then [old(buf[pos])] else []
    {
      var len := if pos == tail then 0 else 1;
      got, next := [], pos;
      if pos < numMsg && len != 0 {
        got, next := [buf[pos]], pos + len;
        buf[next - len] := Zero;
        assert buf[..] == old(buf[..])[pos := Zero];
      }
    }
  }
}
