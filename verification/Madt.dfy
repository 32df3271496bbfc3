/** The record walk over the MADT (ACPI specification, section 5.2.12). */
module Madt {
  import opened Hardware
  import opened Libc
  import opened Machine

  const MADT_SIZE := 44

  datatype Record = Record(kind: Byte, body: seq<Byte>) {
    predicate Valid() { |body| <= 253 }

    function Bytes(): seq<Byte>
      requires Valid()
    {
      [kind, |body| + 2] + body
    }
  }

  type Records = rs: seq<Record> | forall r | r in rs :: r.Valid()

  function Serialize(rs: Records): seq<Byte> {
    if rs == [] then [] else rs[0].Bytes() + Serialize(rs[1..])
  }

  /** Records of length at least 2 that tile the area exactly. */
  predicate WellFormed(b: seq<Byte>) {
    b == [] || (|b| >= 2 && 2 <= b[1] <= |b| && WellFormed(b[b[1]..]))
  }

  function Parse(b: seq<Byte>): Records
    requires WellFormed(b)
  {
    if b == [] then [] else [Record(b[0], b[2..b[1]])] + Parse(b[b[1]..])
  }

  /** Parsing undoes serialising ... */
  lemma {:induction false} ParseSerialize(rs: Records)
    ensures WellFormed(Serialize(rs)) && Parse(Serialize(rs)) == rs
  {
    if rs != [] {
      ParseSerialize(rs[1..]);
      var b := Serialize(rs);
      assert b[b[1]..] == Serialize(rs[1..]);
      assert b[2..b[1]] == rs[0].body;
    }
  }

  /** ... and serialising undoes parsing: every well-formed area is one record list. */
  lemma {:induction false} SerializeParse(b: seq<Byte>)
    requires WellFormed(b)
    ensures Serialize(Parse(b)) == b
  {
    if b != [] {
      SerializeParse(b[b[1]..]);
      FirstRecord(b);
      SerializeCons(Record(b[0], b[2..b[1]]), Parse(b[b[1]..]));
    }
  }

  lemma FirstRecord(b: seq<Byte>)
    requires |b| >= 2 && 2 <= b[1] <= |b|
    ensures Record(b[0], b[2..b[1]]).Bytes() + b[b[1]..] == b
  {
  }

  lemma SerializeCons(r: Record, rs: Records)
    requires r.Valid()
    ensures Serialize([r] + rs) == r.Bytes() + Serialize(rs)
  {
    assert ([r] + rs)[1..] == rs;
  }

  /** A record list in bytes: the type, then the length with these two bytes included, then the body. */
  lemma RecordBytes(rs: Records)
    requires rs != []
    ensures Serialize(rs) == [rs[0].kind, |rs[0].body| + 2] + rs[0].body + Serialize(rs[1..])
  {
  }

  /** Offset of the first record of a kind in the serialised list. */
  function Position(rs: Records, kind: Word): Option<nat> {
    if rs == [] then None
    else if rs[0].kind == kind then Some(0)
    else match Position(rs[1..], kind)
      case None => None
      case Some(o) => Some(|rs[0].Bytes()| + o)
  }

  lemma {:induction false} PositionIsFirst(rs: Records, kind: Word, k: nat)
    requires k < |rs| && rs[k].kind == kind && forall j | 0 <= j < k :: rs[j].kind != kind
    ensures Position(rs, kind) == Some(|Serialize(rs[..k])|)
  {
    if k > 0 {
      assert rs[0].kind != kind;
      forall j | 0 <= j < k - 1
        ensures rs[1..][j].kind != kind
      {
        assert rs[1..][j] == rs[j + 1];
      }
      PositionIsFirst(rs[1..], kind, k - 1);
      assert rs[..k][1..] == rs[1..][..k - 1];
    }
  }

  lemma {:induction false} PositionExists(rs: Records, kind: Word)
    ensures Position(rs, kind) == None <==> forall r | r in rs :: r.kind != kind
  {
    if rs != [] {
      PositionExists(rs[1..], kind);
    }
  }

  // ----- the walk over memory -----

  const SPACE: nat := 0x1_0000_0000

  /** The value of a 32-bit sum. */
  function Wrap(x: nat): (r: Word)
    ensures r == x % SPACE
  {
    if x < SPACE then x else x % SPACE
  }

  /** The address of byte i behind `start`. */
  function At(start: nat, i: nat): Word { Wrap(start + i) }

  /** The loop at offset i is over: at the end, or at a match. */
  predicate Halts(read: Bytes, start: nat, len: nat, kind: Word, i: nat) {
    i >= len || read(At(start, i)) == kind
  }

  /** `i += cur->record_length` on 32 bits. */
  function Next(read: Bytes, start: nat, i: nat): Word {
    Wrap(i + read(At(start, i + 1)))
  }

  /** The loop variable after k iterations. */
  function After(read: Bytes, start: nat, len: nat, kind: Word, i: nat, k: nat): nat
    decreases k, i
  {
    if k == 0 || Halts(read, start, len, kind, i) then i
    else After(read, start, len, kind, Next(read, start, i), k - 1)
  }

  /** The loop gets to its end or to a match after some number of iterations. */
  ghost predicate Terminates(read: Bytes, start: nat, len: nat, kind: Word, i: nat) {
    exists k: nat :: Halts(read, start, len, kind, After(read, start, len, kind, i, k))
  }

  /** The walk from offset i meets no record of length 0 before the end or a match. */
  predicate Ends(read: Bytes, start: nat, len: nat, kind: Word, i: nat)
    decreases len - i
  {
    Halts(read, start, len, kind, i)
    || (read(At(start, i + 1)) > 0 && Ends(read, start, len, kind, i + read(At(start, i + 1))))
  }

  /** While the area is such that the offset does not wrap, the loop terminates if and only if no record of
      length 0 is in the way. */
  lemma {:induction false} EndsExactly(read: Bytes, start: nat, len: nat, kind: Word, i: nat)
    requires len + 255 <= SPACE
    ensures Ends(read, start, len, kind, i) <==> Terminates(read, start, len, kind, i)
    decreases len - i
  {
    var step := read(At(start, i + 1));
    if Halts(read, start, len, kind, i) {
      assert After(read, start, len, kind, i, 0) == i;
    } else if step == 0 {
      forall k: nat
        ensures After(read, start, len, kind, i, k) == i
      {
        Spins(read, start, len, kind, i, k);
      }
    } else {
      EndsExactly(read, start, len, kind, i + step);
      OneMore(read, start, len, kind, i);
    }
  }

  lemma {:induction false} Spins(read: Bytes, start: nat, len: nat, kind: Word, i: nat, k: nat)
    requires read(At(start, i + 1)) == 0 && i < SPACE
    ensures After(read, start, len, kind, i, k) == i
    decreases k
  {
    if k > 0 { Spins(read, start, len, kind, i, k - 1); }
  }

  lemma OneMore(read: Bytes, start: nat, len: nat, kind: Word, i: nat)
    requires !Halts(read, start, len, kind, i)
    ensures Terminates(read, start, len, kind, i) <==> Terminates(read, start, len, kind, Next(read, start, i))
  {
    var next := Next(read, start, i);
    forall k: nat
      ensures After(read, start, len, kind, i, k + 1) == After(read, start, len, kind, next, k)
    {
    }
    if k: nat :| Halts(read, start, len, kind, After(read, start, len, kind, i, k)) {
      assert k > 0 && After(read, start, len, kind, i, (k - 1) + 1) == After(read, start, len, kind, next, k - 1);
    }
    if k: nat :| Halts(read, start, len, kind, After(read, start, len, kind, next, k)) {
      assert Halts(read, start, len, kind, After(read, start, len, kind, i, k + 1));
    }
  }

  // ----- termination for every length -----

  /** The walk comes back to an offset it has been at, without having halted. */
  ghost predicate Returns(read: Bytes, start: nat, len: nat, kind: Word, i: nat, a: nat, b: nat) {
    && a < b && After(read, start, len, kind, i, a) == After(read, start, len, kind, i, b)
    && !Halts(read, start, len, kind, After(read, start, len, kind, i, b))
  }

  lemma {:induction false} AfterAdd(read: Bytes, start: nat, len: nat, kind: Word, i: nat, a: nat, m: nat)
    ensures After(read, start, len, kind, i, a + m)
              == After(read, start, len, kind, After(read, start, len, kind, i, a), m)
    decreases a
  {
    if a > 0 && !Halts(read, start, len, kind, i) {
      AfterAdd(read, start, len, kind, Next(read, start, i), a - 1, m);
    }
  }

  /** A walk that halted stays where it is. */
  lemma StillHalts(read: Bytes, start: nat, len: nat, kind: Word, i: nat, a: nat, b: nat)
    requires a <= b && Halts(read, start, len, kind, After(read, start, len, kind, i, a))
    ensures Halts(read, start, len, kind, After(read, start, len, kind, i, b))
  {
    AfterAdd(read, start, len, kind, i, a, b - a);
  }

  /** Back at an offset, the walk goes round for ever. */
  lemma {:induction false} GoesRound(read: Bytes, start: nat, len: nat, kind: Word, i: nat, a: nat, b: nat, k: nat)
    requires Returns(read, start, len, kind, i, a, b)
    ensures !Halts(read, start, len, kind, After(read, start, len, kind, i, k))
    decreases k
  {
    if k <= b {
      if Halts(read, start, len, kind, After(read, start, len, kind, i, k)) {
        StillHalts(read, start, len, kind, i, k, b);
      }
    } else {
      AfterAdd(read, start, len, kind, i, b, k - b);
      AfterAdd(read, start, len, kind, i, a, k - b);
      GoesRound(read, start, len, kind, i, a, b, a + (k - b));
    }
  }

  ghost function Visited(read: Bytes, start: nat, len: nat, kind: Word, i: nat, n: nat): set<nat>
    decreases n, i
  {
    if n == 0 then {} else Visited(read, start, len, kind, i, n - 1) + {After(read, start, len, kind, i, n - 1)}
  }

  lemma {:induction false} VisitedAt(read: Bytes, start: nat, len: nat, kind: Word, i: nat, n: nat, x: nat)
    returns (a: nat)
    requires x in Visited(read, start, len, kind, i, n)
    ensures a < n && After(read, start, len, kind, i, a) == x
    decreases n
  {
    if x in Visited(read, start, len, kind, i, n - 1) {
      a := VisitedAt(read, start, len, kind, i, n - 1, x);
    } else {
      a := n - 1;
    }
  }

  lemma {:induction false} VisitedSize(read: Bytes, start: nat, len: nat, kind: Word, i: nat, n: nat)
    requires forall a: nat, b: nat | a < b < n ::
               After(read, start, len, kind, i, a) != After(read, start, len, kind, i, b)
    ensures |Visited(read, start, len, kind, i, n)| == n
    decreases n
  {
    if n > 0 {
      VisitedSize(read, start, len, kind, i, n - 1);
      var x := After(read, start, len, kind, i, n - 1);
      if x in Visited(read, start, len, kind, i, n - 1) {
        var a := VisitedAt(read, start, len, kind, i, n - 1, x);
      }
    }
  }

  lemma {:induction false} AfterInSpace(read: Bytes, start: nat, len: nat, kind: Word, i: nat, k: nat)
    requires i < SPACE
    ensures After(read, start, len, kind, i, k) < SPACE
    decreases k
  {
    if k > 0 && !Halts(read, start, len, kind, i) {
      AfterInSpace(read, start, len, kind, Next(read, start, i), k - 1);
    }
  }

  lemma {:induction false} NatBound(s: set<nat>, n: nat)
    requires forall x | x in s :: x < n
    ensures |s| <= n
    decreases n
  {
    if n > 0 {
      NatBound(s - {n - 1}, n - 1);
    } else {
      assert s == {};
    }
  }

  /** More steps than offsets: some offset is met twice. */
  lemma MustReturn(read: Bytes, start: nat, len: nat, kind: Word, i: nat, n: nat, space: nat)
    requires i < SPACE == space && n == space + 1
    requires forall k: nat :: !Halts(read, start, len, kind, After(read, start, len, kind, i, k))
    ensures exists a: nat, b: nat :: Returns(read, start, len, kind, i, a, b)
  {
    if forall a: nat, b: nat | a < b < n :: After(read, start, len, kind, i, a) != After(read, start, len, kind, i, b) {
      VisitedSize(read, start, len, kind, i, n);
      forall x | x in Visited(read, start, len, kind, i, n)
        ensures x < space
      {
        var a := VisitedAt(read, start, len, kind, i, n, x);
        AfterInSpace(read, start, len, kind, i, a);
      }
      NatBound(Visited(read, start, len, kind, i, n), space);
    } else {
      var a: nat, b: nat :| a < b < n && After(read, start, len, kind, i, a) == After(read, start, len, kind, i, b);
      assert Returns(read, start, len, kind, i, a, b);
    }
  }

  /** For every length, also one below 44, with which offset and address wrap: the loop terminates if and only if
      it never comes back to an offset. */
  lemma TerminatesExactly(read: Bytes, start: nat, len: nat, kind: Word, i: nat)
    requires i < SPACE
    ensures Terminates(read, start, len, kind, i) <==>
              forall a: nat, b: nat :: !Returns(read, start, len, kind, i, a, b)
  {
    if Terminates(read, start, len, kind, i) {
      var k: nat :| Halts(read, start, len, kind, After(read, start, len, kind, i, k));
      forall a: nat, b: nat
        ensures !Returns(read, start, len, kind, i, a, b)
      {
        if Returns(read, start, len, kind, i, a, b) {
          GoesRound(read, start, len, kind, i, a, b, k);
        }
      }
    } else {
      var space := SPACE;
      MustReturn(read, start, len, kind, i, space + 1, space);
    }
  }

  // ----- the method -----

  /** The loop's answer: the address where it stopped, 0 at the end of the area. */
  ghost predicate Answer(read: Bytes, start: nat, len: nat, kind: Word, i: nat, addr: nat) {
    exists k: nat :: AnswerAt(read, start, len, kind, After(read, start, len, kind, i, k), addr)
  }

  /** `madt->header.length - sizeof(MADT)` on 32 bits. */
  function AreaLength(length: Word): (len: Word)
    ensures len == if length >= 44 then length - 44 else length + 0x1_0000_0000 - 44
  {
    (length + SPACE - MADT_SIZE) % SPACE
  }

  /** Type and length of every record visited can be read. */
  ghost predicate WalkReadable(read: Bytes, mapped: nat -> bool, start: nat, len: nat, kind: Word, i: nat) {
    forall k: nat :: HeadMapped(read, mapped, start, len, kind, After(read, start, len, kind, i, k))
  }

  predicate HeadMapped(read: Bytes, mapped: nat -> bool, start: nat, len: nat, kind: Word, i: nat) {
    i < len ==> mapped(At(start, i)) && (read(At(start, i)) != kind ==> mapped(At(start, i + 1)))
  }

  /** `find_MADT_entry_by_type` on the running machine, for any length for which the loop terminates
      (`TerminatesExactly`, `EndsExactly`, `FindInTable`). It reads the table's length and the two bytes at the
      head of each record visited; where one of them is not mapped, the source takes a demand fault. */
  method FindMadtEntryByType(m: Machine, madt: Word, kind: Word, ghost start: nat, ghost len: Word,
                             ghost read: Bytes, ghost mapped: nat -> bool)
    returns (addr: nat)
    requires m.Shows(read, mapped) && Range(mapped, madt + 4, 4) && (madt + 4) % 0x1000 <= 0xFFC
    requires start == madt + 44 && len == AreaLength(Word32(read, madt + 4))
    requires Terminates(read, start, len, kind, 0) && WalkReadable(read, mapped, start, len, kind, 0)
    modifies m`tlb, m`pdes
    ensures m.Shows(read, mapped) && Answer(read, start, len, kind, 0, addr)
  {
    var length := m.PeekWord(madt + 4, read, mapped);
    addr := WalkRecords(m, madt + MADT_SIZE, AreaLength(length), kind, read, mapped);
  }

  method WalkRecords(m: Machine, start: nat, len: Word, kind: Word, ghost read: Bytes, ghost mapped: nat -> bool)
    returns (addr: nat)
    requires m.Shows(read, mapped) && Terminates(read, start, len, kind, 0)
    requires WalkReadable(read, mapped, start, len, kind, 0)
    modifies m`tlb, m`pdes
    ensures m.Shows(read, mapped)
    ensures Answer(read, start, len, kind, 0, addr)
  {
    addr := 0;
    var i: nat := 0;
    ghost var k: nat :| Halts(read, start, len, kind, After(read, start, len, kind, 0, k));
    ghost var done, left := 0, k;
    while i < len
      invariant m.Shows(read, mapped) && addr == 0 && done + left == k
      invariant i == After(read, start, len, kind, 0, done)
      decreases left
    {
      assert HeadMapped(read, mapped, start, len, kind, i);
      var matches, next := VisitRecord(m, start, len, kind, i, read, mapped);
      if matches {
        addr := At(start, i);
        break;
      }
      StepOf(read, start, len, kind, done, k);
      i := next;
      done, left := done + 1, left - 1;
    }
  }

  /** The loop's body: the type of the record at offset i, and where the next one is. */
  method VisitRecord(m: Machine, start: nat, ghost len: Word, kind: Word, i: nat, ghost read: Bytes,
                     ghost mapped: nat -> bool)
    returns (matches: bool, next: Word)
    requires m.Shows(read, mapped) && i < len && HeadMapped(read, mapped, start, len, kind, i)
    modifies m`tlb, m`pdes
    ensures m.Shows(read, mapped) && (matches <==> Halts(read, start, len, kind, i))
    ensures !matches ==> next == Next(read, start, i)
  {
    next := 0;
    var entryType := m.Peek(At(start, i), read, mapped);
    matches := entryType == kind;
    if !matches {
      var recordLength := m.Peek(At(start, i + 1), read, mapped);
      next := Wrap(i + recordLength);
    }
  }

  lemma StepOf(read: Bytes, start: nat, len: nat, kind: Word, done: nat, k: nat)
    requires done <= k && Halts(read, start, len, kind, After(read, start, len, kind, 0, k))
    requires !Halts(read, start, len, kind, After(read, start, len, kind, 0, done))
    ensures done < k
    ensures var i := After(read, start, len, kind, 0, done);
            After(read, start, len, kind, 0, done + 1) == Next(read, start, i)
  {
    AfterAdd(read, start, len, kind, 0, done, 1);
    var i := After(read, start, len, kind, 0, done);
    assert After(read, start, len, kind, i, 1) == After(read, start, len, kind, Next(read, start, i), 0);
  }

  /** Where memory holds a serialised record list, the walk ends and its one answer is the start of
      the first record of the kind, 0 exactly when the list has none. */
  lemma FindInTable(read: Bytes, start: nat, len: Word, rs: Records, kind: Word, addr: nat)
    requires 0 < start && start + len <= SPACE && Slice(read, start, len) == Serialize(rs)
    ensures Terminates(read, start, len, kind, 0)
    ensures Answer(read, start, len, kind, 0, addr) <==>
              addr == match Position(rs, kind) { case None => 0 case Some(o) => start + o }
    ensures Answer(read, start, len, kind, 0, 0) <==> forall r | r in rs :: r.kind != kind
  {
    FindFrom(read, start, len, rs, kind, 0, addr);
    FindFrom(read, start, len, rs, kind, 0, 0);
    PositionExists(rs, kind);
  }

  lemma {:induction false} FindFrom(read: Bytes, start: nat, len: Word, rs: Records, kind: Word, i: nat, addr: nat)
    requires start + len <= SPACE && i <= len && Slice(read, start + i, len - i) == Serialize(rs)
    ensures Terminates(read, start, len, kind, i)
    ensures Answer(read, start, len, kind, i, addr) <==>
              addr == match Position(rs, kind) { case None => 0 case Some(o) => start + i + o }
    decreases |rs|
  {
    if rs == [] {
      CStringIsPrefix(read, start + i, len - i);
      HaltsAt(read, start, len, kind, i, addr);
    } else {
      HeadRecord(read, start + i, len - i, rs);
      if rs[0].kind != kind {
        var next := i + |rs[0].Bytes()|;
        assert next == Next(read, start, i);
        FindFrom(read, start, len, rs[1..], kind, next, addr);
        OneMore(read, start, len, kind, i);
        AnswerNext(read, start, len, kind, i, addr);
      } else {
        HaltsAt(read, start, len, kind, i, addr);
      }
    }
  }

  /** The walk over a record list stays within it, so it reads what is mapped when the list is. */
  lemma {:induction false} WalkStaysWithin(read: Bytes, mapped: nat -> bool, start: nat, len: Word, rs: Records,
                                           kind: Word, i: nat, k: nat)
    requires start + len <= SPACE && i <= len && Slice(read, start + i, len - i) == Serialize(rs)
    requires Range(mapped, start, len)
    ensures var at := After(read, start, len, kind, i, k);
            at < len ==> mapped(At(start, at)) && mapped(At(start, at + 1))
    decreases k
  {
    if rs == [] {
      CStringIsPrefix(read, start + i, len - i);
    } else {
      var next := HeadInside(read, mapped, start, len, rs, i);
      if k > 0 && rs[0].kind != kind {
        WalkStaysWithin(read, mapped, start, len, rs[1..], kind, next, k - 1);
      }
    }
  }

  lemma HeadInside(read: Bytes, mapped: nat -> bool, start: nat, len: Word, rs: Records, i: nat) returns (next: nat)
    requires start + len <= SPACE && i <= len && Slice(read, start + i, len - i) == Serialize(rs) && rs != []
    requires Range(mapped, start, len)
    ensures i < next <= len && next == Next(read, start, i) && read(At(start, i)) == rs[0].kind
    ensures mapped(At(start, i)) && mapped(At(start, i + 1))
    ensures Slice(read, start + next, len - next) == Serialize(rs[1..])
  {
    HeadRecord(read, start + i, len - i, rs);
    next := i + |rs[0].Bytes()|;
    assert At(start, i) == start + i && At(start, i + 1) == start + i + 1;
    assert start + next == start + i + |rs[0].Bytes()|;
  }

  /** A table that holds a record list and is mapped is walked without a fault, and the walk's answer is the
      first record of the type. */
  lemma WalkTable(read: Bytes, mapped: nat -> bool, madt: Word, rs: Records, kind: Word)
    requires |Serialize(rs)| + 44 <= 0x1_0000_0000 - madt && Word32(read, madt + 4) == 44 + |Serialize(rs)|
    requires Slice(read, madt + 44, |Serialize(rs)|) == Serialize(rs)
    requires Range(mapped, madt, 44 + |Serialize(rs)|)
    ensures var start, len := madt + 44, AreaLength(Word32(read, madt + 4));
            && Terminates(read, start, len, kind, 0) && WalkReadable(read, mapped, start, len, kind, 0)
            && forall addr: nat :: Answer(read, start, len, kind, 0, addr) <==>
                 addr == match Position(rs, kind) { case None => 0 case Some(o) => start + o }
  {
    var start, len := madt + MADT_SIZE, |Serialize(rs)|;
    AreaOf(len);
    TableAnswers(read, start, len, rs, kind);
    TableReadable(read, mapped, start, len, rs, kind);
  }

  lemma TableAnswers(read: Bytes, start: nat, len: Word, rs: Records, kind: Word)
    requires 0 < start && start + len <= SPACE && Slice(read, start, len) == Serialize(rs)
    ensures Terminates(read, start, len, kind, 0)
    ensures forall addr: nat :: Answer(read, start, len, kind, 0, addr) <==>
              addr == match Position(rs, kind) { case None => 0 case Some(o) => start + o }
  {
    FindInTable(read, start, len, rs, kind, 0);
    forall addr: nat
      ensures Answer(read, start, len, kind, 0, addr) <==>
                addr == match Position(rs, kind) { case None => 0 case Some(o) => start + o }
    {
      FindInTable(read, start, len, rs, kind, addr);
    }
  }

  lemma TableReadable(read: Bytes, mapped: nat -> bool, start: nat, len: Word, rs: Records, kind: Word)
    requires start + len <= SPACE && Slice(read, start, len) == Serialize(rs) && Range(mapped, start, len)
    ensures WalkReadable(read, mapped, start, len, kind, 0)
  {
    forall k: nat
      ensures HeadMapped(read, mapped, start, len, kind, After(read, start, len, kind, 0, k))
    {
      WalkStaysWithin(read, mapped, start, len, rs, kind, 0, k);
    }
  }

  // ----- where the mapping ends -----

  /** What is read of the record at offset i lies below the address `end`: its type, and its length unless the
      type matches. */
  predicate HeadBelow(read: Bytes, start: nat, len: nat, kind: Word, end: nat, i: nat) {
    i < len ==> start + i < end && (read(At(start, i)) != kind ==> start + i + 1 < end)
  }

  ghost predicate HeadsBelow(read: Bytes, start: nat, len: nat, kind: Word, end: nat) {
    forall k: nat :: HeadBelow(read, start, len, kind, end, After(read, start, len, kind, 0, k))
  }

  /** Memory from `start` is mapped up to `end`, and a record's length further nothing is. */
  ghost predicate EndsAt(mapped: nat -> bool, start: nat, end: nat) {
    && start < end + 256 < SPACE && (forall b: nat | start <= b < end :: mapped(b))
    && forall b: nat | end <= b < end + 256 :: !mapped(b)
  }

  /** When the mapping ends, the walk faults if and only if it visits a record whose head is not below the end:
      no record is long enough to step over the unmapped part. */
  lemma ReadableExactly(read: Bytes, mapped: nat -> bool, start: nat, len: Word, kind: Word, end: nat)
    requires EndsAt(mapped, start, end)
    ensures WalkReadable(read, mapped, start, len, kind, 0) <==> HeadsBelow(read, start, len, kind, end)
  {
    if WalkReadable(read, mapped, start, len, kind, 0) {
      forall k: nat
        ensures HeadBelow(read, start, len, kind, end, After(read, start, len, kind, 0, k))
      {
        ReadableBelow(read, mapped, start, len, kind, end, k);
      }
    }
    if HeadsBelow(read, start, len, kind, end) {
      forall k: nat
        ensures HeadMapped(read, mapped, start, len, kind, After(read, start, len, kind, 0, k))
      {
        assert HeadBelow(read, start, len, kind, end, After(read, start, len, kind, 0, k));
      }
    }
  }

  lemma {:induction false} ReadableBelow(read: Bytes, mapped: nat -> bool, start: nat, len: Word, kind: Word,
                                         end: nat, k: nat)
    requires EndsAt(mapped, start, end) && WalkReadable(read, mapped, start, len, kind, 0)
    ensures HeadBelow(read, start, len, kind, end, After(read, start, len, kind, 0, k))
    decreases k
  {
    var at := After(read, start, len, kind, 0, k);
    assert HeadMapped(read, mapped, start, len, kind, at);
    if k > 0 {
      ReadableBelow(read, mapped, start, len, kind, end, k - 1);
      AfterAdd(read, start, len, kind, 0, k - 1, 1);
      StepBelow(read, mapped, start, len, kind, end, After(read, start, len, kind, 0, k - 1), at);
    } else {
      MappedBelow(read, mapped, start, len, kind, end, at);
    }
  }

  lemma StepBelow(read: Bytes, mapped: nat -> bool, start: nat, len: Word, kind: Word, end: nat, i: nat, next: nat)
    requires EndsAt(mapped, start, end) && HeadBelow(read, start, len, kind, end, i)
    requires next == After(read, start, len, kind, i, 1) && HeadMapped(read, mapped, start, len, kind, next)
    ensures HeadBelow(read, start, len, kind, end, next)
  {
    if !Halts(read, start, len, kind, i) {
      assert next == After(read, start, len, kind, Next(read, start, i), 0);
      MappedBelow(read, mapped, start, len, kind, end, next);
    }
  }

  lemma MappedBelow(read: Bytes, mapped: nat -> bool, start: nat, len: Word, kind: Word, end: nat, i: nat)
    requires EndsAt(mapped, start, end) && start + i < end + 256 && HeadMapped(read, mapped, start, len, kind, i)
    ensures HeadBelow(read, start, len, kind, end, i)
  {
    if i < len {
      assert At(start, i) == start + i;
      if read(At(start, i)) != kind {
        assert At(start, i + 1) == start + i + 1;
      }
    }
  }

  lemma AreaOf(n: nat)
    requires 44 + n < SPACE
    ensures AreaLength(44 + n) == n
  {
  }

  lemma HaltsAt(read: Bytes, start: nat, len: nat, kind: Word, i: nat, addr: nat)
    requires Halts(read, start, len, kind, i)
    ensures Terminates(read, start, len, kind, i)
    ensures Answer(read, start, len, kind, i, addr) <==> addr == if i >= len then 0 else At(start, i)
  {
    assert After(read, start, len, kind, i, 0) == i;
  }

  ghost predicate AnswerAt(read: Bytes, start: nat, len: nat, kind: Word, at: nat, addr: nat) {
    Halts(read, start, len, kind, at) && addr == if at >= len then 0 else At(start, at)
  }

  lemma AnswerNext(read: Bytes, start: nat, len: nat, kind: Word, i: nat, addr: nat)
    requires !Halts(read, start, len, kind, i)
    ensures Answer(read, start, len, kind, i, addr) <==> Answer(read, start, len, kind, Next(read, start, i), addr)
  {
    var next := Next(read, start, i);
    forall k: nat
      ensures After(read, start, len, kind, i, k + 1) == After(read, start, len, kind, next, k)
    {
    }
    if k: nat :| AnswerAt(read, start, len, kind, After(read, start, len, kind, i, k), addr) {
      assert k > 0 && After(read, start, len, kind, i, (k - 1) + 1) == After(read, start, len, kind, next, k - 1);
    }
    if k: nat :| AnswerAt(read, start, len, kind, After(read, start, len, kind, next, k), addr) {
      assert AnswerAt(read, start, len, kind, After(read, start, len, kind, i, k + 1), addr);
    }
  }

  lemma HeadRecord(read: Bytes, a: nat, n: nat, rs: Records)
    requires rs != [] && Slice(read, a, n) == Serialize(rs)
    ensures var m := |rs[0].Bytes()|;
            && 2 <= m <= n && read(a) == rs[0].kind && read(a + 1) == m
            && Slice(read, a + m, n - m) == Serialize(rs[1..])
  {
    SliceHead(read, a, n, rs[0].Bytes(), Serialize(rs[1..]));
  }

  lemma SliceHead(read: Bytes, a: nat, n: nat, head: seq<Byte>, tail: seq<Byte>)
    requires |head| >= 2 && Slice(read, a, n) == head + tail
    ensures |head| <= n && read(a) == head[0] && read(a + 1) == head[1]
    ensures Slice(read, a + |head|, n - |head|) == tail
  {
    CStringIsPrefix(read, a, n);
    var b := head + tail;
    assert b[0] == head[0] && b[1] == head[1];
    SliceAt(read, a, n, 0);
    SliceAt(read, a, n, 1);
    SliceTail(read, a, n, head, tail);
  }

  lemma SliceTail(read: Bytes, a: nat, n: nat, head: seq<Byte>, tail: seq<Byte>)
    requires Slice(read, a, n) == head + tail && |head| <= n
    ensures Slice(read, a + |head|, n - |head|) == tail
  {
    CStringIsPrefix(read, a, n);
    assert (head + tail)[|head|..] == tail;
    if |head| < n {
      SliceAt(read, a, n, |head|);
    }
  }
}
