/**
 The decisions of the streaming reader and of a scan without a buffer, for any account of what
 stands where in a stream.
 */
module StreamScan {
  import opened Wrappers
  import opened Bytes

  const BUF_SIZE: nat := 65536

  type RecordLength = n: nat | 8 <= n witness 8

  /** What stands at a position: too few bytes, a word to step over, a whole record, or one cut off. */
  datatype Sight = End | Word | Whole(len: RecordLength) | CutOff

  type Look = nat -> Sight

  /** The decoded record of the given length at a position, if it decodes. */
  type Cutter<!R> = (nat, nat) -> Option<R>

  function Emit<R>(parsed: Option<R>, rest: seq<R>): seq<R> {
    if parsed.Some? then [parsed.value] + rest else rest
  }

  // ----- Without a buffer -----

  function PlainBy<R>(look: Look, cut: Cutter<R>, limit: nat, pos: nat): seq<R>
    decreases limit - pos
  {
    if pos >= limit then []
    else
      match look(pos)
      case End => []
      case Word => PlainBy(look, cut, limit, pos + 8)
      case CutOff => PlainBy(look, cut, limit, pos + 8)
      case Whole(len) => Emit(cut(pos, len), PlainBy(look, cut, limit, pos + Align8(len)))
  }

  /** No record on the way claims more bytes than the stream has left. */
  predicate NoOverrunBy(look: Look, limit: nat, pos: nat)
    decreases limit - pos
  {
    pos < limit ==>
      match look(pos)
      case End => true
      case Word => NoOverrunBy(look, limit, pos + 8)
      case CutOff => false
      case Whole(len) => NoOverrunBy(look, limit, pos + Align8(len))
  }

  /** No whole record on the way is one of those that `has` marks. */
  predicate NoRecordBy(look: Look, has: (nat, nat) -> bool, limit: nat, pos: nat)
    decreases limit - pos
  {
    pos < limit ==>
      match look(pos)
      case End => true
      case Word => NoRecordBy(look, has, limit, pos + 8)
      case CutOff => NoRecordBy(look, has, limit, pos + 8)
      case Whole(len) => !has(pos, len) && NoRecordBy(look, has, limit, pos + Align8(len))
  }

  // ----- With one -----

  /** One decision of the reader: give up, step over, or cut out `len` bytes. */
  datatype Move = Stop | Skip(pos: nat, loaded: nat) | Cut(len: nat, pos: nat, loaded: nat)

  /** Where the buffer ends after a refill at `pos`. */
  function Refill(limit: nat, pos: nat): nat {
    if pos + BUF_SIZE <= limit then pos + BUF_SIZE else limit
  }

  /** The high-water mark once `need` bytes from `pos` on were asked for. */
  function Loaded(limit: nat, pos: nat, loaded: nat, need: nat): nat {
    if pos + need > loaded then Refill(limit, pos) else loaded
  }

  /**
   Of the buffer only the high-water mark `loaded` remains: it decides what becomes of a record
   that overruns the stream.
   */
  function MoveFrom(sight: Sight, limit: nat, pos: nat, loaded: nat): (m: Move)
    ensures !m.Stop? ==> pos < m.pos
  {
    match sight
    case End => Stop
    case Word => Skip(pos + 8, Loaded(limit, pos, loaded, 8))
    case Whole(len) => Cut(len, pos + Align8(len), Loaded(limit, pos, loaded, len))
    case CutOff => if Loaded(limit, pos, loaded, 8) >= limit then Stop else Skip(pos + 8, Refill(limit, pos))
  }

  function MoveBy(look: Look, limit: nat, pos: nat, loaded: nat): (m: Move)
    ensures !m.Stop? ==> pos < m.pos && pos < limit
  {
    if pos >= limit then Stop else MoveFrom(look(pos), limit, pos, loaded)
  }

  function ScanBy<R>(look: Look, cut: Cutter<R>, limit: nat, pos: nat, loaded: nat): seq<R>
    decreases limit - pos
  {
    match MoveBy(look, limit, pos, loaded)
    case Stop => []
    case Skip(next, l) => ScanBy(look, cut, limit, next, l)
    case Cut(len, next, l) => Emit(cut(pos, len), ScanBy(look, cut, limit, next, l))
  }

  /** Where the reader gives up, nothing that `has` marks is left. */
  predicate NothingLostBy(look: Look, has: (nat, nat) -> bool, limit: nat, pos: nat, loaded: nat)
    decreases limit - pos
  {
    var m := MoveBy(look, limit, pos, loaded);
    if m.Stop? then NoRecordBy(look, has, limit, pos) else NothingLostBy(look, has, limit, m.pos, m.loaded)
  }

  // ----- Its steps -----

  lemma ScansPastWord<R>(look: Look, cut: Cutter<R>, limit: nat, pos: nat, loaded: nat)
    requires pos + 8 <= loaded <= limit && look(pos) == Word
    ensures ScanBy(look, cut, limit, pos, loaded) == ScanBy(look, cut, limit, pos + 8, loaded)
  {
  }

  /** With less than a word at hand a refill changes nothing, unless there is nothing to refill from. */
  lemma {:induction false} ScansAfterRefill<R>(look: Look, cut: Cutter<R>, limit: nat, pos: nat, loaded: nat)
    requires pos + 8 > loaded
    ensures pos >= limit || look(pos) == End ==> ScanBy(look, cut, limit, pos, loaded) == []
    ensures ScanBy(look, cut, limit, pos, loaded) == ScanBy(look, cut, limit, pos, Refill(limit, pos))
  {
  }

  lemma {:induction false} ScansStraddling<R>(look: Look, cut: Cutter<R>, limit: nat, pos: nat, loaded: nat,
                                              len: RecordLength)
    requires pos < limit && look(pos) == Whole(len) && pos + len > loaded
    ensures ScanBy(look, cut, limit, pos, loaded) == ScanBy(look, cut, limit, pos, Refill(limit, pos))
  {
  }

  lemma ScansOverrun<R>(look: Look, cut: Cutter<R>, limit: nat, pos: nat, loaded: nat)
    requires pos + 8 <= loaded <= limit && look(pos) == CutOff
    ensures ScanBy(look, cut, limit, pos, loaded) ==
            if loaded == limit then [] else ScanBy(look, cut, limit, pos + 8, Refill(limit, pos))
  {
  }

  lemma ScansRecord<R>(look: Look, cut: Cutter<R>, limit: nat, pos: nat, loaded: nat, len: RecordLength)
    requires pos + len <= loaded <= limit && look(pos) == Whole(len)
    ensures ScanBy(look, cut, limit, pos, loaded) ==
            Emit(cut(pos, len), ScanBy(look, cut, limit, pos + Align8(len), loaded))
  {
  }

  lemma PlainPastWord<R>(look: Look, cut: Cutter<R>, limit: nat, pos: nat)
    requires pos < limit && (look(pos) == Word || look(pos) == CutOff)
    ensures PlainBy(look, cut, limit, pos) == PlainBy(look, cut, limit, pos + 8)
  {
  }

  lemma PlainPastRecord<R>(look: Look, cut: Cutter<R>, limit: nat, pos: nat, len: RecordLength)
    requires pos < limit && look(pos) == Whole(len)
    ensures PlainBy(look, cut, limit, pos) == Emit(cut(pos, len), PlainBy(look, cut, limit, pos + Align8(len)))
  {
  }

  // ----- Comparing the two -----

  /** Every record that decodes is marked. */
  ghost predicate Marks<R>(has: (nat, nat) -> bool, cut: Cutter<R>) {
    forall pos, len :: cut(pos, len).Some? ==> has(pos, len)
  }

  /** Every record that is marked decodes. */
  ghost predicate DecodesAll<R>(has: (nat, nat) -> bool, cut: Cutter<R>) {
    forall pos, len :: has(pos, len) ==> cut(pos, len).Some?
  }

  lemma EmitSame<R>(parsed: Option<R>, a: seq<R>, b: seq<R>)
    ensures Emit(parsed, a) == Emit(parsed, b) <==> a == b
  {
    if parsed.Some? && Emit(parsed, a) == Emit(parsed, b) {
      assert a == Emit(parsed, a)[1..] && b == Emit(parsed, b)[1..];
    }
  }

  /** Reader and plain scan agree at `pos` exactly when they agree where the reader goes next. */
  lemma {:induction false} SameStep<R>(look: Look, cut: Cutter<R>, limit: nat, pos: nat, loaded: nat)
    requires !MoveBy(look, limit, pos, loaded).Stop?
    ensures
      var m := MoveBy(look, limit, pos, loaded);
      ScanBy(look, cut, limit, pos, loaded) == PlainBy(look, cut, limit, pos)
      <==> ScanBy(look, cut, limit, m.pos, m.loaded) == PlainBy(look, cut, limit, m.pos)
  {
    var m := MoveBy(look, limit, pos, loaded);
    if m.Cut? {
      EmitSame(cut(pos, m.len), ScanBy(look, cut, limit, m.pos, m.loaded), PlainBy(look, cut, limit, m.pos));
    }
  }

  lemma {:induction false} NoRecordIff<R>(look: Look, cut: Cutter<R>, has: (nat, nat) -> bool, limit: nat, pos: nat)
    requires Marks(has, cut)
    ensures NoRecordBy(look, has, limit, pos) ==> PlainBy(look, cut, limit, pos) == []
    ensures DecodesAll(has, cut) && PlainBy(look, cut, limit, pos) == [] ==>
              NoRecordBy(look, has, limit, pos)
    decreases limit - pos
  {
    if pos < limit {
      match look(pos)
      case End =>
      case Whole(len) => NoRecordIff(look, cut, has, limit, pos + Align8(len));
      case _ => NoRecordIff(look, cut, has, limit, pos + 8);
    }
  }

  /** A reader that loses nothing yields the plain scan; a decoder that takes every record gives a loss away. */
  lemma {:induction false} ScanAgreesIff<R>(look: Look, cut: Cutter<R>, has: (nat, nat) -> bool, limit: nat, pos: nat,
                                            loaded: nat)
    requires Marks(has, cut)
    ensures NothingLostBy(look, has, limit, pos, loaded) ==>
              ScanBy(look, cut, limit, pos, loaded) == PlainBy(look, cut, limit, pos)
    ensures DecodesAll(has, cut)
            && ScanBy(look, cut, limit, pos, loaded) == PlainBy(look, cut, limit, pos) ==>
              NothingLostBy(look, has, limit, pos, loaded)
    decreases limit - pos
  {
    var m := MoveBy(look, limit, pos, loaded);
    if m.Stop? {
      NoRecordIff(look, cut, has, limit, pos);
    } else {
      SameStep(look, cut, limit, pos, loaded);
      ScanAgreesIff(look, cut, has, limit, m.pos, m.loaded);
    }
  }

  lemma {:induction false} NoOverrunNothingLost(look: Look, has: (nat, nat) -> bool, limit: nat, pos: nat, loaded: nat)
    requires NoOverrunBy(look, limit, pos)
    ensures NothingLostBy(look, has, limit, pos, loaded)
    decreases limit - pos
  {
    var m := MoveBy(look, limit, pos, loaded);
    if !m.Stop? {
      NoOverrunNothingLost(look, has, limit, m.pos, m.loaded);
    }
  }
}
