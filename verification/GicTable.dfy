/**
 The GIC table built from the MADT (ACPI 6.3, section 5.2.12): four walks over one stream of
 length-prefixed records, each collecting one kind of interrupt controller structure.
 */
module GicTable {

  type Byte = n: nat | n < 256

  /** Where the records start in the MADT. */
  const HEADER: nat := 44

  /** The kinds of structure, in the order in which they are collected. */
  datatype Kind = CpuIf | Distributor | Redistributor | Translator

  function Code(k: Kind): Byte {
    match k
    case CpuIf => 0x0B
    case Distributor => 0x0C
    case Redistributor => 0x0E
    case Translator => 0x0F
  }

  /** The offset of the 64-bit base address. */
  function BaseAt(k: Kind): nat {
    match k
    case CpuIf => 32
    case Distributor => 8
    case Redistributor => 4
    case Translator => 8
  }

  /** The least length with all fields that are read. */
  function Needs(k: Kind): nat {
    match k
    case CpuIf => 40
    case Distributor => 21
    case Redistributor => 12
    case Translator => 16
  }

  const VERSION_AT: nat := 20

  // ------------------------------------------------------------------ records and their stream

  /** A record: its type, and what follows the length byte. */
  datatype Record = Record(code: Byte, body: seq<Byte>) {
    predicate Is(k: Kind) { code == Code(k) }

    ghost predicate Fits() { |body| < 254 && forall k: Kind :: Is(k) ==> |body| + 2 >= Needs(k) }

    function Bytes(): seq<Byte>
      requires |body| < 254
    {
      [code, |body| + 2] + body
    }

    function Base(k: Kind): nat
      requires |body| + 2 >= Needs(k)
    {
      Number(body[BaseAt(k) - 2..BaseAt(k) + 6])
    }

    ghost predicate Present(k: Kind)
      requires Fits()
    {
      Is(k) && Base(k) != 0
    }

    ghost predicate Wanted()
      requires Fits()
    {
      Present(CpuIf) || Present(Distributor) || Present(Redistributor) || Present(Translator)
    }
  }

  /** Little endian. */
  function Number(bs: seq<Byte>): nat {
    if bs == [] then 0 else bs[0] + 256 * Number(bs[1..])
  }

  /** Type, then the length of the whole record, then the rest. */
  lemma {:induction false} BytesExact(r: Record)
    requires |r.body| < 254
    ensures var bs := r.Bytes();
            |bs| >= 2 && bs[0] == r.code && bs[1] == |bs| && bs[2..] == r.body
  {}

  /** The eight bytes from offset `at` of a record, its type and length included, as a little endian number. */
  function Eight(r: Record, at: nat): nat
    requires 2 <= at && at + 6 <= |r.body|
  {
    var b := r.body[at - 2..at + 6];
    Weighted(b[0], b[1], b[2], b[3], b[4], b[5], b[6], b[7])
  }

  function Weighted(a: nat, b: nat, c: nat, d: nat, e: nat, f: nat, g: nat, h: nat): nat {
    a + 0x100 * b + 0x1_0000 * c + 0x100_0000 * d + 0x1_0000_0000 * e + 0x100_0000_0000 * f
      + 0x1_0000_0000_0000 * g + 0x100_0000_0000_0000 * h
  }

  lemma {:induction false} NumberEight(b: seq<Byte>)
    requires |b| == 8
    ensures Number(b) == Weighted(b[0], b[1], b[2], b[3], b[4], b[5], b[6], b[7])
  {
    NumberFour(b[4..]);
    assert b[1..][1..] == b[2..] && b[2..][1..] == b[3..] && b[3..][1..] == b[4..];
    assert Number(b[3..]) == b[3] + 256 * Number(b[4..]);
    assert Number(b[2..]) == b[2] + 256 * Number(b[3..]);
    assert Number(b[1..]) == b[1] + 256 * Number(b[2..]);
  }

  lemma {:induction false} NumberFour(b: seq<Byte>)
    requires |b| == 4
    ensures Number(b) == Weighted(b[0], b[1], b[2], b[3], 0, 0, 0, 0)
  {
    assert b[1..][1..] == b[2..] && b[2..][1..] == b[3..] && b[3..][1..] == [];
    assert Number(b[3..]) == b[3];
    assert Number(b[2..]) == b[2] + 256 * Number(b[3..]);
    assert Number(b[1..]) == b[1] + 256 * Number(b[2..]);
  }

  /** Which records are collected, and with which base: by type code and by the address at its offset. */
  lemma {:induction false} PresentExact(r: Record)
    requires r.Fits()
    ensures r.code == 0x0B ==> |r.body| >= 38 && r.Base(CpuIf) == Eight(r, 32)
    ensures r.code == 0x0C ==> |r.body| >= 19 && r.Base(Distributor) == Eight(r, 8)
    ensures r.code == 0x0E ==> |r.body| >= 10 && r.Base(Redistributor) == Eight(r, 4)
    ensures r.code == 0x0F ==> |r.body| >= 14 && r.Base(Translator) == Eight(r, 8)
    ensures r.Present(CpuIf) <==> r.code == 0x0B && r.Base(CpuIf) != 0
    ensures r.Present(Distributor) <==> r.code == 0x0C && r.Base(Distributor) != 0
    ensures r.Present(Redistributor) <==> r.code == 0x0E && r.Base(Redistributor) != 0
    ensures r.Present(Translator) <==> r.code == 0x0F && r.Base(Translator) != 0
  {
    assert r.Is(CpuIf) || r.Is(Distributor) || r.Is(Redistributor) || r.Is(Translator) || r.code !in {11, 12, 14, 15};
    if r.code == 0x0B { NumberEight(r.body[30..38]); }
    if r.code == 0x0C { NumberEight(r.body[6..14]); }
    if r.code == 0x0E { NumberEight(r.body[2..10]); }
    if r.code == 0x0F { NumberEight(r.body[6..14]); }
    hide Number;
  }

  ghost predicate AllFit(rs: seq<Record>) { forall i :: 0 <= i < |rs| ==> rs[i].Fits() }

  /** The bytes of the records from the k-th on. */
  ghost function Stream(rs: seq<Record>, k: nat): seq<Byte>
    requires AllFit(rs) && k <= |rs|
    decreases |rs| - k
  {
    if k == |rs| then [] else rs[k].Bytes() + Stream(rs, k + 1)
  }

  /** A record is at offset `at`, whole and with all fields that are read of it. */
  ghost predicate RecordFits(bs: seq<Byte>, at: nat) {
    at + 1 < |bs| && 2 <= bs[at + 1] && at + bs[at + 1] <= |bs| && RecordAt(bs, at).Fits()
  }

  function RecordAt(bs: seq<Byte>, at: nat): Record
    requires at + 1 < |bs| && 2 <= bs[at + 1] && at + bs[at + 1] <= |bs|
  {
    Record(bs[at], bs[at + 2..at + bs[at + 1]])
  }

  /** Records up to the very end. */
  ghost predicate WellFormed(bs: seq<Byte>, at: nat)
    decreases |bs| - at
  {
    at == |bs| || (RecordFits(bs, at) && WellFormed(bs, at + bs[at + 1]))
  }

  ghost function Parse(bs: seq<Byte>, at: nat): (rs: seq<Record>)
    requires WellFormed(bs, at)
    ensures AllFit(rs)
    decreases |bs| - at
  {
    if at == |bs| then [] else [RecordAt(bs, at)] + Parse(bs, at + bs[at + 1])
  }

  /** A record whose bytes come next is found there, and what follows it comes after. */
  lemma {:induction false} RecordFound(bs: seq<Byte>, at: nat, r: Record, tail: seq<Byte>)
    requires r.Fits() && at <= |bs| && bs[at..] == r.Bytes() + tail
    ensures at + 1 < |bs| && 2 <= bs[at + 1] && at + bs[at + 1] <= |bs| && RecordFits(bs, at)
    ensures RecordAt(bs, at) == r && bs[at + bs[at + 1]..] == tail
  {
    var rest := bs[at..];
    assert bs[at] == rest[0] == r.code && bs[at + 1] == rest[1] == |r.body| + 2;
    var next := at + |r.body| + 2;
    assert bs[at + 2..next] == rest[2..|r.body| + 2] == r.body;
    assert bs[next..] == rest[|r.body| + 2..] == tail;
    hide Record.Fits;
  }

  /** Parsing where a stream of records begins gives those records back. */
  lemma {:induction false} ParseFrom(bs: seq<Byte>, at: nat, rs: seq<Record>, k: nat)
    requires AllFit(rs) && k <= |rs| && at <= |bs| && bs[at..] == Stream(rs, k)
    ensures WellFormed(bs, at) && Parse(bs, at) == rs[k..]
    decreases |rs| - k
  {
    hide Record.Bytes, Record.Fits, RecordAt, RecordFits;
    if k == |rs| {
      assert at == |bs|;
    } else {
      var r := rs[k];
      RecordFound(bs, at, r, Stream(rs, k + 1));
      assert rs[k..] == [r] + rs[k + 1..];
      ParseFrom(bs, at + bs[at + 1], rs, k + 1);
      hide *;
      ParseCons(bs, at);
    }
  }

  /** Whatever bytes come before the stream. */
  lemma {:induction false} ParseStream(pre: seq<Byte>, rs: seq<Record>, k: nat)
    requires AllFit(rs) && k <= |rs|
    ensures WellFormed(pre + Stream(rs, k), |pre|) && Parse(pre + Stream(rs, k), |pre|) == rs[k..]
  {
    var bs := pre + Stream(rs, k);
    assert bs[|pre|..] == Stream(rs, k);
    ParseFrom(bs, |pre|, rs, k);
  }

  lemma {:induction false} ParseCons(bs: seq<Byte>, at: nat)
    requires RecordFits(bs, at) && at + 1 < |bs| && 2 <= bs[at + 1] && at + bs[at + 1] <= |bs|
    requires WellFormed(bs, at + bs[at + 1])
    ensures WellFormed(bs, at) && Parse(bs, at) == [RecordAt(bs, at)] + Parse(bs, at + bs[at + 1])
  {}

  /** And the stream of the parsed records is the bytes parsed. */
  lemma {:induction false} StreamParse(bs: seq<Byte>, at: nat)
    requires WellFormed(bs, at)
    ensures Stream(Parse(bs, at), 0) == bs[at..]
    decreases |bs| - at
  {
    if at < |bs| {
      var r, next := RecordAt(bs, at), at + bs[at + 1];
      assert r.Bytes() == bs[at..next];
      hide RecordAt, Record.Bytes, Record.Fits, RecordFits;
      StreamParse(bs, next);
      StreamTail(r, Parse(bs, next), 0);
      assert bs[at..] == bs[at..next] + bs[next..];
    }
  }

  lemma {:induction false} StreamTail(r: Record, rs: seq<Record>, k: nat)
    requires r.Fits() && AllFit(rs) && k <= |rs|
    ensures AllFit([r] + rs) && Stream([r] + rs, k + 1) == Stream(rs, k)
    decreases |rs| - k
  {
    if k < |rs| { StreamTail(r, rs, k + 1); }
  }

  // ------------------------------------------------------------------ what is collected

  datatype EntryType = Of(kind: Kind) | EndMark | Unset
  datatype Entry = Entry(tag: EntryType, base: nat)

  /** The entries of one kind among the first k records: those with a base address, in order. */
  ghost function Collect(rs: seq<Record>, k: nat, kind: Kind): seq<Entry>
    requires AllFit(rs) && k <= |rs|
  {
    if k == 0 then []
    else if rs[k - 1].Present(kind) then Collect(rs, k - 1, kind) + [Entry(Of(kind), rs[k - 1].Base(kind))]
    else Collect(rs, k - 1, kind)
  }

  ghost function All(rs: seq<Record>, kind: Kind): seq<Entry>
    requires AllFit(rs)
  {
    Collect(rs, |rs|, kind)
  }

  /** CPU interfaces first, then distributors, redistributors and translators. */
  ghost function Groups(rs: seq<Record>): seq<Entry>
    requires AllFit(rs)
  {
    All(rs, CpuIf) + All(rs, Distributor) + All(rs, Redistributor) + All(rs, Translator)
  }

  /** The version that the last distributor with a base address gives; 0 if there is none. */
  ghost function Version(rs: seq<Record>, k: nat): nat
    requires AllFit(rs) && k <= |rs|
  {
    if k == 0 then 0
    else if rs[k - 1].Present(Distributor) then rs[k - 1].body[VERSION_AT - 2]
    else Version(rs, k - 1)
  }

  ghost function PresentCount(rs: seq<Record>, k: nat): nat
    requires AllFit(rs) && k <= |rs|
  {
    if k == 0 then 0 else PresentCount(rs, k - 1) + if rs[k - 1].Wanted() then 1 else 0
  }

  /** Every record of a collected kind with a base address gets exactly one entry. */
  lemma {:induction false} EachOnce(rs: seq<Record>, k: nat)
    requires AllFit(rs) && k <= |rs|
    ensures PresentCount(rs, k) == |Collect(rs, k, CpuIf)| + |Collect(rs, k, Distributor)| +
            |Collect(rs, k, Redistributor)| + |Collect(rs, k, Translator)|
  {
    if k > 0 {
      EachOnce(rs, k - 1);
    }
  }

  lemma {:induction false} CollectedTags(rs: seq<Record>, k: nat, kind: Kind)
    requires AllFit(rs) && k <= |rs|
    ensures forall i :: 0 <= i < |Collect(rs, k, kind)| ==>
            Collect(rs, k, kind)[i].tag == Of(kind) && Collect(rs, k, kind)[i].base != 0
  {
    if k > 0 { CollectedTags(rs, k - 1, kind); }
  }

  /** The entry that a record gets: of its type, with its address, if that is not 0. */
  ghost function EntryFor(r: Record): seq<Entry>
    requires r.Fits()
  {
    PresentExact(r);
    if r.code == 0x0B && Eight(r, 32) != 0 then [Entry(Of(CpuIf), Eight(r, 32))]
    else if r.code == 0x0C && Eight(r, 8) != 0 then [Entry(Of(Distributor), Eight(r, 8))]
    else if r.code == 0x0E && Eight(r, 4) != 0 then [Entry(Of(Redistributor), Eight(r, 4))]
    else if r.code == 0x0F && Eight(r, 8) != 0 then [Entry(Of(Translator), Eight(r, 8))]
    else []
  }

  /** The entries of one kind are those of the records, one after the other. */
  lemma {:induction false} CollectExact(rs: seq<Record>, k: nat, kind: Kind)
    requires AllFit(rs) && k < |rs|
    ensures Collect(rs, 0, kind) == []
    ensures var e := EntryFor(rs[k]);
            Collect(rs, k + 1, kind) == Collect(rs, k, kind) + if e != [] && e[0].tag == Of(kind) then e else []
  {
    PresentExact(rs[k]);
    hide Eight, Number;
  }

  /** The version is the byte at offset 20 of the last distributor with an address. */
  lemma {:induction false} VersionExact(rs: seq<Record>, k: nat)
    requires AllFit(rs) && k < |rs|
    ensures Version(rs, 0) == 0
    ensures var e := EntryFor(rs[k]);
            Version(rs, k + 1) == if e != [] && e[0].tag == Of(Distributor) then VersionByte(rs[k])
              else Version(rs, k)
  {
    PresentExact(rs[k]);
    hide Eight, Number;
  }

  function VersionByte(r: Record): nat { if |r.body| > 18 then r.body[18] else 0 }

  /** The place of an entry's type in the table. */
  function Place(t: EntryType): nat {
    match t
    case Of(CpuIf) => 0
    case Of(Distributor) => 1
    case Of(Redistributor) => 2
    case Of(Translator) => 3
    case EndMark => 4
    case Unset => 5
  }

  /** No entry comes before one of an earlier place. */
  lemma {:induction false} GroupsSorted(rs: seq<Record>)
    requires AllFit(rs)
    ensures forall i, j :: 0 <= i < j < |Groups(rs)| ==> Place(Groups(rs)[i].tag) <= Place(Groups(rs)[j].tag)
  {
    CollectedTags(rs, |rs|, CpuIf);
    CollectedTags(rs, |rs|, Distributor);
    CollectedTags(rs, |rs|, Redistributor);
    CollectedTags(rs, |rs|, Translator);
    hide Collect;
    GroupsRise(All(rs, CpuIf), All(rs, Distributor), All(rs, Redistributor), All(rs, Translator));
  }

  ghost predicate AllTagged(s: seq<Entry>, kind: Kind) { forall i :: 0 <= i < |s| ==> s[i].tag == Of(kind) }

  lemma {:induction false} GroupsRise(a: seq<Entry>, b: seq<Entry>, c: seq<Entry>, d: seq<Entry>)
    requires AllTagged(a, CpuIf) && AllTagged(b, Distributor) && AllTagged(c, Redistributor) && AllTagged(d, Translator)
    ensures forall i, j :: 0 <= i < j < |a + b + c + d| ==>
              Place((a + b + c + d)[i].tag) <= Place((a + b + c + d)[j].tag)
  {
    var s := a + b + c + d;
    var m, n := |a| + |b|, |a| + |b| + |c|;
    forall i | 0 <= i < |s|
      ensures Place(s[i].tag) == if i < |a| then 0 else if i < m then 1 else if i < n then 2 else 3
    {
    }
  }

  /** What a reader finds that goes through the table up to the end mark. */
  function UpToMark(info: seq<Entry>, k: nat): seq<Entry>
    requires k <= |info|
    decreases |info| - k
  {
    if k == |info| || info[k].tag == EndMark then [] else [info[k]] + UpToMark(info, k + 1)
  }

  lemma {:induction false} MarkFound(info: seq<Entry>, k: nat, n: nat)
    requires k <= n < |info| && info[n].tag == EndMark && forall i :: k <= i < n ==> info[i].tag != EndMark
    ensures UpToMark(info, k) == info[k..n]
    decreases n - k
  {
    if k < n { MarkFound(info, k + 1, n); }
  }

  ghost predicate Filled(info: seq<Entry>, gs: seq<Entry>) {
    |gs| < |info| && info[..|gs|] == gs && info[|gs|].tag == EndMark
  }

  lemma {:induction false} FilledRead(info: seq<Entry>, rs: seq<Record>)
    requires AllFit(rs) && Filled(info, Groups(rs))
    ensures UpToMark(info, 0) == Groups(rs)
  {
    var gs := Groups(rs);
    forall i | 0 <= i < |gs|
      ensures info[i].tag != EndMark
    {
      CollectedTags(rs, |rs|, CpuIf);
      CollectedTags(rs, |rs|, Distributor);
      CollectedTags(rs, |rs|, Redistributor);
      CollectedTags(rs, |rs|, Translator);
      assert info[i] == info[..|gs|][i] == gs[i];
    }
    MarkFound(info, 0, |gs|);
    assert info[0..|gs|] == info[..|gs|];
  }

  /** From records to bytes to table and back: the reader finds the groups of the records that made up the stream. */
  lemma {:induction false} TableRoundTrip(header: seq<Byte>, rs: seq<Record>, info: seq<Entry>)
    requires AllFit(rs) && |header| == 44 && WellFormed(header + Stream(rs, 0), HEADER)
    requires Filled(info, Groups(Parse(header + Stream(rs, 0), HEADER)))
    ensures UpToMark(info, 0) == Groups(rs)
  {
    ParseStream(header, rs, 0);
    assert rs[0..] == rs;
    FilledRead(info, rs);
  }

  // ------------------------------------------------------------------ the walks

  lemma {:induction false} ParseStep(bs: seq<Byte>, at: nat)
    requires WellFormed(bs, at) && at < |bs|
    ensures RecordFits(bs, at) && WellFormed(bs, at + bs[at + 1])
    ensures Parse(bs, at) != [] && Parse(bs, at)[0] == RecordAt(bs, at) &&
            Parse(bs, at)[1..] == Parse(bs, at + bs[at + 1])
    ensures at + bs[at + 1] == |bs| <==> |Parse(bs, at)| == 1
  {
  }

  lemma {:induction false} CollectStep(rs: seq<Record>, k: nat, kind: Kind)
    requires AllFit(rs) && k < |rs|
    ensures Collect(rs, k + 1, kind) == if rs[k].Present(kind)
            then Collect(rs, k, kind) + [Entry(Of(kind), rs[k].Base(kind))] else Collect(rs, k, kind)
    ensures |Collect(rs, k + 1, kind)| <= |All(rs, kind)|
    ensures Collect(rs, 0, kind) == [] && Version(rs, 0) == 0
  {
    CollectGrows(rs, k + 1, |rs|, kind);
  }

  lemma {:induction false} CollectGrows(rs: seq<Record>, j: nat, k: nat, kind: Kind)
    requires AllFit(rs) && j <= k <= |rs|
    ensures |Collect(rs, j, kind)| <= |Collect(rs, k, kind)|
    decreases k
  {
    if j < k { CollectGrows(rs, j, k - 1, kind); }
  }

  /** The header of the table. */
  datatype Header = Header(gicVersion: nat, numGicd: nat, numGicrd: nat, numIts: nat)

  /** What one entered record of a kind does to the header. */
  function Tick(h: Header, kind: Kind, r: Record): Header
    requires |r.body| + 2 >= Needs(Distributor) || kind != Distributor
  {
    match kind
    case CpuIf => h
    case Distributor => h.(gicVersion := r.body[VERSION_AT - 2], numGicd := h.numGicd + 1)
    case Redistributor => h.(numGicrd := h.numGicrd + 1)
    case Translator => h.(numIts := h.numIts + 1)
  }

  ghost function Ticked(h: Header, rs: seq<Record>, k: nat, kind: Kind): Header
    requires AllFit(rs) && k <= |rs|
  {
    if k == 0 then h
    else if rs[k - 1].Present(kind) then Tick(Ticked(h, rs, k - 1, kind), kind, rs[k - 1])
    else Ticked(h, rs, k - 1, kind)
  }

  /**
   A walk adds the number of entries it makes to its own count, and the distributors' walk leaves the last
   version.
   */
  lemma {:induction false} TickedIs(h: Header, rs: seq<Record>, k: nat, kind: Kind)
    requires AllFit(rs) && k <= |rs|
    ensures var n := |Collect(rs, k, kind)|;
            Ticked(h, rs, k, kind) == match kind
                                      case CpuIf => h
                                      case Distributor => h.(gicVersion := if n == 0 then h.gicVersion
                                        else Version(rs, k), numGicd := h.numGicd + n)
                                      case Redistributor => h.(numGicrd := h.numGicrd + n)
                                      case Translator => h.(numIts := h.numIts + n)
    ensures kind == Distributor && Collect(rs, k, kind) == [] ==> Version(rs, k) == 0
  {
    if k > 0 { TickedIs(h, rs, k - 1, kind); }
  }

  /** After the four walks. */
  ghost function FinalHeader(rs: seq<Record>): Header
    requires AllFit(rs)
  {
    Header(Version(rs, |rs|), |All(rs, Distributor)|, |All(rs, Redistributor)|, |All(rs, Translator)|)
  }

  /** `now` is `was` with the entries es written from `next` on. */
  ghost predicate Written(now: seq<Entry>, was: seq<Entry>, next: nat, es: seq<Entry>) {
    && |now| == |was| && next + |es| <= |now|
    && (forall i :: 0 <= i < |es| ==> now[next + i] == es[i])
    && (forall i :: 0 <= i < |now| && !(next <= i < next + |es|) ==> now[i] == was[i])
  }

  lemma {:induction false} WrittenMore(now: seq<Entry>, was: seq<Entry>, next: nat, es: seq<Entry>, e: Entry)
    requires Written(now, was, next, es) && next + |es| < |now|
    ensures Written(now[next + |es| := e], was, next, es + [e])
  {
  }

  lemma {:induction false} WrittenBoth(a: seq<Entry>, b: seq<Entry>, c: seq<Entry>, next: nat, es: seq<Entry>,
      fs: seq<Entry>)
    requires Written(b, a, next, es) && Written(c, b, next + |es|, fs)
    ensures Written(c, a, next, es + fs)
  {
    forall i | 0 <= i < |es + fs|
      ensures c[next + i] == (es + fs)[i]
    {
      if i >= |es| { assert c[next + |es| + (i - |es|)] == fs[i - |es|]; }
    }
  }

  /** A walk that has come to offset `at` has k of the records behind it. */
  ghost predicate Reached(bs: seq<Byte>, at: nat, rs: seq<Record>, k: nat) {
    WellFormed(bs, at) && AllFit(rs) && k <= |rs| && Parse(bs, at) == rs[k..]
  }

  lemma {:induction false} ReachNext(bs: seq<Byte>, at: nat, rs: seq<Record>, k: nat)
    requires Reached(bs, at, rs, k) && at < |bs|
    ensures k < |rs| && RecordFits(bs, at) && RecordAt(bs, at) == rs[k] && at + bs[at + 1] <= |bs| &&
            Reached(bs, at + bs[at + 1], rs, k + 1)
    ensures at + bs[at + 1] == |bs| ==> k + 1 == |rs|
  {
    ParseStep(bs, at);
  }

  lemma {:induction false} WalkStep(bs: seq<Byte>, at: nat, h: Header, now: seq<Entry>, was: seq<Entry>, next: nat,
      rs: seq<Record>, k: nat, kind: Kind)
    requires AllFit(rs) && k < |rs| && RecordFits(bs, at) && RecordAt(bs, at) == rs[k]
    requires Written(now, was, next, Collect(rs, k, kind)) && next + |All(rs, kind)| <= |now|
    ensures RecordAt(bs, at).Fits()
    ensures var r, last := rs[k], next + |Collect(rs, k, kind)|;
            && (r.Present(kind) ==> last < |now|)
            && (r.Present(kind) ==>
                  Written(now[last := Entry(Of(kind), r.Base(kind))], was, next, Collect(rs, k + 1, kind)))
            && (!r.Present(kind) ==> Written(now, was, next, Collect(rs, k + 1, kind)))
            && |Collect(rs, k + 1, kind)| == |Collect(rs, k, kind)| + (if r.Present(kind) then 1 else 0)
            && Ticked(h, rs, k + 1, kind) == if r.Present(kind) then Tick(Ticked(h, rs, k, kind), kind, r)
              else Ticked(h, rs, k, kind)
  {
    CollectStep(rs, k, kind);
    if rs[k].Present(kind) {
      WrittenMore(now, was, next, Collect(rs, k, kind), Entry(Of(kind), rs[k].Base(kind)));
    }
  }

  /** How a walk began: its records and the index, entries and header it found; and how many records it has filed. */
  datatype Progress = Progress(rs: seq<Record>, next: nat, was: seq<Entry>, h: Header, k: nat)

  ghost predicate Walked(bs: seq<Byte>, at: nat, kind: Kind, last: nat, now: seq<Entry>, header: Header, w: Progress) {
    && Reached(bs, at, w.rs, w.k)
    && w.next + |All(w.rs, kind)| <= |w.was|
    && last == w.next + |Collect(w.rs, w.k, kind)|
    && Written(now, w.was, w.next, Collect(w.rs, w.k, kind))
    && header == Ticked(w.h, w.rs, w.k, kind)
  }

  lemma {:induction false} WalkStart(bs: seq<Byte>, kind: Kind, next: nat, was: seq<Entry>, h: Header)
    requires HEADER < |bs| && WellFormed(bs, HEADER) && next + |All(Parse(bs, HEADER), kind)| <= |was|
    ensures Walked(bs, HEADER, kind, next, was, h, Progress(Parse(bs, HEADER), next, was, h, 0))
  {
    var rs := Parse(bs, HEADER);
    assert rs[0..] == rs;
  }

  lemma {:induction false} WalkEnd(bs: seq<Byte>, kind: Kind, last: nat, now: seq<Entry>, header: Header, w: Progress)
    requires Walked(bs, |bs|, kind, last, now, header, w)
    ensures AllFit(w.rs) && last == w.next + |All(w.rs, kind)| && Written(now, w.was, w.next, All(w.rs, kind))
    ensures header == Ticked(w.h, w.rs, |w.rs|, kind)
  {
    assert |w.rs[w.k..]| == 0;
  }

  /** Filing the record at offset `at`, if it is of the walk's kind and has a base address, is one step of the walk. */
  lemma {:induction false} VisitStep(bs: seq<Byte>, at: nat, kind: Kind, last: nat, now: seq<Entry>, header: Header,
      w: Progress)
    requires Walked(bs, at, kind, last, now, header, w) && at < |bs|
    ensures RecordFits(bs, at) && at + 1 < |bs| && 2 <= bs[at + 1] && at + bs[at + 1] <= |bs|
    ensures var r, after, v := RecordAt(bs, at), at + bs[at + 1], w.(k := w.k + 1);
            && r.Fits() && (r.Present(kind) ==> last < |now|)
            && (r.Present(kind) && kind == Distributor ==> |r.body| + 2 >= Needs(Distributor))
            && if r.Present(kind) then
                 Walked(bs, after, kind, last + 1, now[last := Entry(Of(kind), r.Base(kind))], Tick(header, kind, r), v)
               else Walked(bs, after, kind, last, now, header, v)
  {
    ReachNext(bs, at, w.rs, w.k);
    WalkStep(bs, at, w.h, now, w.was, w.next, w.rs, w.k, kind);
    hide Reached, Written, Collect, Ticked, Tick, Number, WellFormed, Parse;
  }

  lemma {:induction false} FourWalks(rs: seq<Record>, s0: seq<Entry>, s1: seq<Entry>, s2: seq<Entry>, s3: seq<Entry>,
      s4: seq<Entry>,
                                     h1: Header, h2: Header, h3: Header, h4: Header)
    requires AllFit(rs)
    requires Written(s1, s0, 0, All(rs, CpuIf)) && h1 == Ticked(Header(0, 0, 0, 0), rs, |rs|, CpuIf)
    requires Written(s2, s1, |All(rs, CpuIf)|, All(rs, Distributor)) && h2 == Ticked(h1, rs, |rs|, Distributor)
    requires Written(s3, s2, |All(rs, CpuIf)| + |All(rs, Distributor)|, All(rs, Redistributor)) &&
             h3 == Ticked(h2, rs, |rs|, Redistributor)
    requires Written(s4, s3, |All(rs, CpuIf)| + |All(rs, Distributor)| + |All(rs, Redistributor)|,
             All(rs, Translator)) && h4 == Ticked(h3, rs, |rs|, Translator)
    ensures Written(s4, s0, 0, Groups(rs)) && h4 == FinalHeader(rs)
  {
    WrittenBoth(s0, s1, s2, 0, All(rs, CpuIf), All(rs, Distributor));
    WrittenBoth(s0, s2, s3, 0, All(rs, CpuIf) + All(rs, Distributor), All(rs, Redistributor));
    WrittenBoth(s0, s3, s4, 0, All(rs, CpuIf) + All(rs, Distributor) + All(rs, Redistributor), All(rs, Translator));
    TickedIs(Header(0, 0, 0, 0), rs, |rs|, CpuIf);
    TickedIs(h1, rs, |rs|, Distributor);
    TickedIs(h2, rs, |rs|, Redistributor);
    TickedIs(h3, rs, |rs|, Translator);
  }

  lemma {:induction false} MarkFills(now: seq<Entry>, was: seq<Entry>, gs: seq<Entry>)
    requires Written(now, was, 0, gs) && |gs| < |now|
    ensures Filled(now[|gs| := now[|gs|].(tag := EndMark)], gs)
    ensures forall i :: |gs| < i < |now| ==> now[i] == was[i]
  {
    assert forall i :: 0 <= i < |gs| ==> now[0 + i] == gs[i];
    assert now[|gs| := now[|gs|].(tag := EndMark)][..|gs|] == gs;
  }

  class Table {
    const info: array<Entry>
    var header: Header

    constructor (capacity: nat)
      ensures info.Length == capacity && fresh(info)
    {
      info := new Entry[capacity](_ => Entry(Unset, 0));
      header := Header(0, 0, 0, 0);
    }

    /** Enters a record of the walk's kind that has a base address, and counts it. */
    method Enter(r: Record, kind: Kind, next: nat) returns (last: nat)
      requires r.Fits() && (r.Present(kind) ==> next < info.Length)
      modifies info, this
      ensures last == if r.Present(kind) then next + 1 else next
      ensures info[..] == if r.Present(kind) then old(info[..])[next := Entry(Of(kind), r.Base(kind))]
              else old(info[..])
      ensures header == if r.Present(kind) then Tick(old(header), kind, r) else old(header)
    {
      last := next;
      if r.Is(kind) {
        if r.Base(kind) != 0 {
          info[last] := Entry(Of(kind), r.Base(kind));
          match kind {
            case CpuIf =>
            case Distributor => header := header.(gicVersion := r.body[VERSION_AT - 2], numGicd := header.numGicd + 1);
            case Redistributor => header := header.(numGicrd := header.numGicrd + 1);
            case Translator => header := header.(numIts := header.numIts + 1);
          }
          last := last + 1;
        }
      }
    }

    /** Files the record at offset `at` and moves to the next one. */
    method Visit(bs: seq<Byte>, at: nat, kind: Kind, last: nat, ghost w: Progress)
      returns (beyond: nat, after: nat)
      requires Walked(bs, at, kind, last, info[..], header, w) && at < |bs|
      modifies info, this
      ensures at < after <= |bs| && Walked(bs, after, kind, beyond, info[..], header, w.(k := w.k + 1))
    {
      VisitStep(bs, at, kind, last, info[..], header, w);
      hide *;
      beyond := Enter(RecordAt(bs, at), kind, last);
      after := at + bs[at + 1];
    }

    /** One walk over all records, which appends the entries of one kind from index `next` on. */
    method Walk(bs: seq<Byte>, kind: Kind, next: nat) returns (last: nat)
      requires HEADER < |bs| && WellFormed(bs, HEADER)
      requires next + |All(Parse(bs, HEADER), kind)| <= info.Length
      modifies info, this
      ensures last == next + |All(Parse(bs, HEADER), kind)|
      ensures Written(info[..], old(info[..]), next, All(Parse(bs, HEADER), kind))
      ensures header == Ticked(old(header), Parse(bs, HEADER), |Parse(bs, HEADER)|, kind)
    {
      ghost var w := Progress(Parse(bs, HEADER), next, info[..], header, 0);
      WalkStart(bs, kind, next, info[..], header);
      hide *;
      last := next;
      var at: nat := HEADER;
      while true
        invariant at < |bs| && w == Progress(Parse(bs, HEADER), next, old(info[..]), old(header), w.k)
        invariant Walked(bs, at, kind, last, info[..], header, w)
        decreases |bs| - at
      {
        last, at := Visit(bs, at, kind, last, w);
        w := w.(k := w.k + 1);
        if at >= |bs| { break; }
      }
      WalkEnd(bs, kind, last, info[..], header, w);
    }

    /** Fills the table: four walks, then the end mark behind the last entry. */
    method CreateInfoTable(bs: seq<Byte>)
      requires HEADER < |bs| && WellFormed(bs, HEADER) && |Groups(Parse(bs, HEADER))| < info.Length
      modifies info, this
      ensures Filled(info[..], Groups(Parse(bs, HEADER)))
      ensures header == FinalHeader(Parse(bs, HEADER))
      ensures forall i :: |Groups(Parse(bs, HEADER))| < i < info.Length ==> info[i] == old(info[i])
    {
      ghost var rs := Parse(bs, HEADER);
      header := Header(0, 0, 0, 0);
      ghost var s0 := info[..];
      hide Written, Ticked, Collect;
      var next := Walk(bs, CpuIf, 0);
      ghost var s1, h1 := info[..], header;
      next := Walk(bs, Distributor, next);
      ghost var s2, h2 := info[..], header;
      next := Walk(bs, Redistributor, next);
      ghost var s3, h3 := info[..], header;
      next := Walk(bs, Translator, next);
      FourWalks(rs, s0, s1, s2, s3, info[..], h1, h2, h3, header);
      MarkFills(info[..], s0, Groups(rs));
      ghost var s4 := info[..];
      info[next] := info[next].(tag := EndMark);
      assert info[..] == s4[next := s4[next].(tag := EndMark)];
    }
  }
}
