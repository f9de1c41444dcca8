/** The keyboard driver: scan code decoding, and the 256-slot ring between the interrupt
    handler and one reader, under every interleaving of the two. */
module Keyboard {
  const SLOTS := 256

  // ---- decoding ----

  const ROW1 := "\0\U{1b}1234567890-=\U{8}"
  const ROW2 := "\tqwertyuiop[]\n"
  const ROW3 := "\0asdfghjkl;'`"
  const ROW4 := "\0\\zxcvbnm,./\0"
  const ROW5 := "*\0 "
  const PLAIN: string := ROW1 + ROW2 + ROW3 + ROW4 + ROW5

  const SHIFT1 := "\0\U{1b}!@#$%^&*()_+\U{8}"
  const SHIFT2 := "\tQWERTYUIOP{}\n"
  const SHIFT3 := "\0ASDFGHJKL:\"~"
  const SHIFT4 := "\0|ZXCVBNM<>?\0"
  const SHIFTED: string := SHIFT1 + SHIFT2 + SHIFT3 + SHIFT4 + ROW5

  predicate Lower(c: char) {
    'a' <= c <= 'z'
  }

  predicate Upper(c: char) {
    'A' <= c <= 'Z'
  }

  function ToUpper(c: char): char
    requires Lower(c)
  {
    (c as int - 'a' as int + 'A' as int) as char
  }

  function ToLower(c: char): char
    requires Upper(c)
  {
    (c as int - 'A' as int + 'a' as int) as char
  }

  /** A table of 128 entries of which the tail not written down is zero. */
  function Entry(table: string, code: nat): char {
    if code < |table| then table[code] else '\0'
  }

  /** What a key press produces under the two modifiers; zero for nothing. */
  function DecodeIn(plain: string, shifted: string, shift: bool, caps: bool, code: nat): char {
    var c := Entry(if shift then shifted else plain, code);
    if caps && Lower(c) then ToUpper(c)
    else if caps && Upper(c) then ToLower(c)
    else c
  }

  function Decode(shift: bool, caps: bool, code: nat): char {
    DecodeIn(PLAIN, SHIFTED, shift, caps, code)
  }

  /** The two characters of one key: a letter in both cases, or no letter at all. */
  predicate Pair(c: char, d: char) {
    && !Upper(c) && !Lower(d) && (Lower(c) <==> Upper(d))
    && (Lower(c) ==> d == ToUpper(c))
    && (c == '\0' <==> d == '\0')
  }

  predicate Paired(plain: string, shifted: string) {
    |plain| == |shifted| && forall i :: 0 <= i < |plain| ==> Pair(plain[i], shifted[i])
  }

  lemma TopLettersPaired()
    ensures Paired(ROW2, SHIFT2)
  {
  }

  lemma HomeLettersPaired()
    ensures Paired(ROW3, SHIFT3)
  {
  }

  lemma OtherRowsPaired()
    ensures Paired(ROW1, SHIFT1)
    ensures Paired(ROW4, SHIFT4)
    ensures Paired(ROW5, ROW5)
  {
  }

  lemma TablesPaired()
    ensures Paired(PLAIN, SHIFTED)
  {
    hide Paired;
    TopLettersPaired();
    HomeLettersPaired();
    OtherRowsPaired();
    PairedJoin(ROW1, SHIFT1, ROW2, SHIFT2);
    PairedJoin(ROW1 + ROW2, SHIFT1 + SHIFT2, ROW3, SHIFT3);
    PairedJoin(ROW1 + ROW2 + ROW3, SHIFT1 + SHIFT2 + SHIFT3, ROW4, SHIFT4);
    PairedJoin(ROW1 + ROW2 + ROW3 + ROW4, SHIFT1 + SHIFT2 + SHIFT3 + SHIFT4, ROW5, ROW5);
  }

  lemma PairedJoin(plain: string, shifted: string, plain': string, shifted': string)
    requires Paired(plain, shifted) && Paired(plain', shifted')
    ensures Paired(plain + plain', shifted + shifted')
  {
    hide Pair;
  }

  lemma PairedInverts(plain: string, shifted: string, shift: bool, code: nat)
    requires Paired(plain, shifted)
    ensures var c := DecodeIn(plain, shifted, shift, false, code);
            DecodeIn(plain, shifted, shift, true, code)
            == if Lower(c) || Upper(c) then DecodeIn(plain, shifted, !shift, false, code) else c
    ensures DecodeIn(plain, shifted, true, true, code) == '\0' <==> DecodeIn(plain, shifted, false, false, code) == '\0'
  {
  }

  /** Shift and caps lock undo each other on letters, caps lock touches only letters, and
      whether a key produces anything depends on neither. */
  lemma CapsInvertsShift(shift: bool, code: nat)
    ensures var c := Decode(shift, false, code);
            Decode(shift, true, code) == if Lower(c) || Upper(c) then Decode(!shift, false, code) else c
    ensures Decode(true, true, code) == '\0' <==> Decode(false, false, code) == '\0'
  {
    hide Paired, DecodeIn;
    TablesPaired();
    PairedInverts(PLAIN, SHIFTED, shift, code);
  }

  /** Without modifiers no key gives a capital; with shift a letter key gives the capital. */
  lemma ShiftCapitalizes(code: nat)
    ensures var c := Decode(false, false, code);
            && !Upper(c)
            && (Lower(c) ==> Decode(true, false, code) == ToUpper(c))
            && (!Lower(c) ==> !Lower(Decode(true, false, code)) && !Upper(Decode(true, false, code)))
  {
    hide Paired, DecodeIn;
    TablesPaired();
    PairedCapitals(PLAIN, SHIFTED, code);
  }

  lemma PairedCapitals(plain: string, shifted: string, code: nat)
    requires Paired(plain, shifted)
    ensures var c, d := DecodeIn(plain, shifted, false, false, code), DecodeIn(plain, shifted, true, false, code);
            !Upper(c) && (if Lower(c) then d == ToUpper(c) else !Lower(d) && !Upper(d))
  {
  }

  /** Where the rows of keys start in scan code set 1: the digits at 0x02, Q at 0x10, A at
      0x1E, Z at 0x2C; and Enter, Backspace, Tab and Space. */
  lemma KeyPositions()
    ensures PLAIN[0x02..0x0C] == "1234567890" && PLAIN[0x10..0x1A] == "qwertyuiop"
    ensures PLAIN[0x1E..0x27] == "asdfghjkl" && PLAIN[0x2C..0x33] == "zxcvbnm"
    ensures SHIFTED[0x02..0x0C] == "!@#$%^&*()"
    ensures Decode(false, false, 0x1C) == '\n' && Decode(false, false, 0x39) == ' '
    ensures Decode(false, false, 0x0E) == '\U{8}' && Decode(false, false, 0x0F) == '\t'
  {
    DigitRow();
    LetterRows();
    var before3 := ROW1 + ROW2;
    var before4 := before3 + ROW3;
    assert |ROW1| == 15 && |before3| == 29 && |before4| == 42;
    assert PLAIN[0x02..0x0C] == ROW1[2..12] && SHIFTED[0x02..0x0C] == SHIFT1[2..12];
    assert PLAIN[0x10..0x1A] == ROW2[1..11];
    assert PLAIN[0x1E..0x27] == ROW3[1..10];
    assert PLAIN[0x2C..0x33] == ROW4[2..9];
  }

  lemma DigitRow()
    ensures ROW1[2..12] == "1234567890" && SHIFT1[2..12] == "!@#$%^&*()"
  {
    CutAt(ROW1, 2, "1234567890");
    CutAt(SHIFT1, 2, "!@#$%^&*()");
  }

  lemma LetterRows()
    ensures ROW2[1..11] == "qwertyuiop" && ROW3[1..10] == "asdfghjkl" && ROW4[2..9] == "zxcvbnm"
  {
    CutAt(ROW2, 1, "qwertyuiop");
    CutAt(ROW3, 1, "asdfghjkl");
    CutAt(ROW4, 2, "zxcvbnm");
  }

  lemma CutAt(row: string, from: nat, part: string)
    requires from + |part| <= |row| && forall k :: 0 <= k < |part| ==> row[from + k] == part[k]
    ensures row[from..from + |part|] == part
  {
  }

  // ---- the ring and its two users ----

  datatype Device = Device(buffer: seq<char>, head: nat, tail: nat, shift: bool, caps: bool)

  ghost predicate Sane(d: Device) {
    |d.buffer| == SLOTS && d.head < SLOTS && d.tail < SLOTS
  }

  function Count(head: nat, tail: nat): nat
    requires head < SLOTS && tail < SLOTS
  {
    if head >= tail then head - tail else head + SLOTS - tail
  }

  /** The slot `k` places after the tail. */
  function Slot(tail: nat, k: nat): nat {
    (tail + k) % SLOTS
  }

  /** The characters waiting in the ring, oldest first. */
  ghost function Queued(d: Device): (q: seq<char>)
    requires Sane(d)
    ensures |q| == Count(d.head, d.tail) < SLOTS
  {
    seq(Count(d.head, d.tail), k requires 0 <= k < Count(d.head, d.tail) => d.buffer[Slot(d.tail, k)])
  }

  /** The modifiers after one scan code, and the character it types; zero for none. */
  function Modified(shift: bool, caps: bool, code: nat): (bool, bool, char) {
    if code == 0x2A || code == 0x36 then (true, caps, '\0')
    else if code == 0xAA || code == 0xB6 then (false, caps, '\0')
    else if code == 0x3A then (shift, !caps, '\0')
    else if code >= 0x80 then (shift, caps, '\0')
    else (shift, caps, Decode(shift, caps, code))
  }

  /** `keyboard_handler` as one step: interrupts are not interrupted. */
  function Handled(d: Device, code: nat): Device
    requires Sane(d)
  {
    var (shift, caps, c) := Modified(d.shift, d.caps, code);
    var next := Slot(d.head, 1);
    if c != '\0' && next != d.tail
    then Device(d.buffer[d.head := c], next, d.tail, shift, caps)
    else d.(shift := shift, caps := caps)
  }

  /** A typed character joins the queue, or is dropped when 255 are waiting. */
  lemma HandledQueues(d: Device, code: nat)
    requires Sane(d)
    ensures var d' := Handled(d, code);
            var c := Modified(d.shift, d.caps, code).2;
            && Sane(d') && d'.tail == d.tail
            && Queued(d') == if c != '\0' && |Queued(d)| < SLOTS - 1 then Queued(d) + [c] else Queued(d)
  {
    hide Modified;
    var next := Slot(d.head, 1);
    assert next != d.tail <==> Count(d.head, d.tail) < SLOTS - 1;
    if next != d.tail {
      HeadAdvances(d, Modified(d.shift, d.caps, code).2);
    }
    SameRing(d, Handled(d, code));
  }

  lemma HeadAdvances(d: Device, c: char)
    requires Sane(d) && Slot(d.head, 1) != d.tail
    ensures Queued(d.(buffer := d.buffer[d.head := c], head := Slot(d.head, 1))) == Queued(d) + [c]
  {
    var d' := d.(buffer := d.buffer[d.head := c], head := Slot(d.head, 1));
    var n := Count(d.head, d.tail);
    assert Count(d'.head, d.tail) == n + 1 && Slot(d.tail, n) == d.head;
    forall k | 0 <= k < n
      ensures Queued(d')[k] == Queued(d)[k]
    {
      assert Slot(d.tail, k) != d.head;
    }
  }

  lemma SameRing(d: Device, d': Device)
    requires Sane(d) && Sane(d')
    ensures d.buffer == d'.buffer && d.head == d'.head && d.tail == d'.tail ==> Queued(d) == Queued(d')
  {
  }

  /** The device after a series of interrupts. */
  ghost function HandledAll(d: Device, codes: seq<nat>): (r: Device)
    requires Sane(d)
    ensures Sane(r)
  {
    if codes == [] then d else
    var before := HandledAll(d, codes[..|codes| - 1]);
    HandledQueues(before, codes[|codes| - 1]);
    Handled(before, codes[|codes| - 1])
  }

  lemma TailAdvances(d: Device)
    requires Sane(d) && d.head != d.tail
    ensures var d' := d.(tail := Slot(d.tail, 1));
            Sane(d') && Queued(d) == [d.buffer[d.tail]] + Queued(d')
  {
  }

  /** Where the reader stands inside `keyboard_read`. */
  datatype Reader = Waiting | Ready | Holding(c: char)

  datatype World = World(dev: Device, reader: Reader, delivered: seq<char>)

  /** An interrupt with its scan code, or one step of the reader. */
  datatype Event = Interrupt(code: nat) | Read

  /** The reader's steps: the test for emptiness, the read of the slot, and the advance of
      the tail that ends the call. An interrupt may fall between any two. */
  function ReaderStep(w: World): World
    requires Sane(w.dev)
  {
    match w.reader
    case Waiting => if w.dev.head != w.dev.tail then w.(reader := Ready) else w
    case Ready => w.(reader := Holding(w.dev.buffer[w.dev.tail]))
    case Holding(c) =>
      World(w.dev.(tail := Slot(w.dev.tail, 1)), Waiting, w.delivered + [c])
  }

  function Step(w: World, e: Event): World
    requires Sane(w.dev)
  {
    match e
    case Interrupt(code) => w.(dev := Handled(w.dev, code))
    case Read => ReaderStep(w)
  }

  ghost predicate Invariant(w: World) {
    && Sane(w.dev)
    && (w.reader != Waiting ==> w.dev.head != w.dev.tail)
    && (w.reader.Holding? ==> w.reader.c == w.dev.buffer[w.dev.tail])
  }

  function Start(buffer: seq<char>): World {
    World(Device(buffer, 0, 0, false, false), Waiting, [])
  }

  /** The handler moves neither the tail nor, while the ring is not empty, the slot there. */
  lemma HandledKeeps(d: Device, code: nat)
    requires Sane(d)
    ensures var d' := Handled(d, code);
            d.head != d.tail ==> d'.head != d'.tail && d'.buffer[d'.tail] == d.buffer[d.tail]
  {
    hide Modified;
  }

  lemma StepKeeps(w: World, e: Event)
    requires Invariant(w)
    ensures Invariant(Step(w, e))
    ensures var w' := Step(w, e);
            match e
            case Interrupt(code) =>
              var c := Modified(w.dev.shift, w.dev.caps, code).2;
              && w'.delivered == w.delivered
              && Queued(w'.dev)
                 == if c != '\0' && |Queued(w.dev)| < 255 then Queued(w.dev) + [c] else Queued(w.dev)
            case Read =>
              w'.delivered + Queued(w'.dev) == w.delivered + Queued(w.dev)
  {
    hide Modified, Queued, Count;
    match e
    case Interrupt(code) =>
      HandledQueues(w.dev, code);
      HandledKeeps(w.dev, code);
    case Read =>
      if w.reader.Holding? {
        TailAdvances(w.dev);
        var w' := ReaderStep(w);
        assert w'.delivered + Queued(w'.dev) == w.delivered + ([w.reader.c] + Queued(w'.dev));
      }
  }

  function Run(buffer: seq<char>, events: seq<Event>): (w: World)
    requires |buffer| == SLOTS
    ensures Invariant(w)
  {
    if events == [] then Start(buffer) else
    var n := |events| - 1;
    var w := Run(buffer, events[..n]);
    StepKeeps(w, events[n]);
    Step(w, events[n])
  }

  // ---- what a run should deliver, from the events alone ----

  /** The last shift event was a press. */
  predicate ShiftHeld(events: seq<Event>) {
    events != [] &&
    var e := events[|events| - 1];
    if e == Interrupt(0x2A) || e == Interrupt(0x36) then true
    else if e == Interrupt(0xAA) || e == Interrupt(0xB6) then false
    else ShiftHeld(events[..|events| - 1])
  }

  function CapsPresses(events: seq<Event>): nat {
    if events == [] then 0
    else CapsPresses(events[..|events| - 1]) + if events[|events| - 1] == Interrupt(0x3A) then 1 else 0
  }

  predicate Modifier(code: nat) {
    code in {0x2A, 0x36, 0x3A}
  }

  /** What event `e` types after `events`: nothing for a release, a modifier or a key
      without a character. */
  function Types(events: seq<Event>, e: Event): seq<char> {
    if e.Read? || e.code >= 0x80 || Modifier(e.code) then []
    else
      var c := Decode(ShiftHeld(events), CapsPresses(events) % 2 == 1, e.code);
      if c == '\0' then [] else [c]
  }

  /** Everything typed, in order. */
  function Typed(events: seq<Event>): seq<char> {
    if events == [] then [] else
    var n := |events| - 1;
    Typed(events[..n]) + Types(events[..n], events[n])
  }

  /** What is typed except what arrives while 255 characters wait for the reader. */
  function Accepted(buffer: seq<char>, events: seq<Event>): seq<char>
    requires |buffer| == SLOTS
  {
    if events == [] then [] else
    var n := |events| - 1;
    var before := Accepted(buffer, events[..n]);
    if |before| - |Run(buffer, events[..n]).delivered| < 255
    then before + Types(events[..n], events[n])
    else before
  }

  lemma {:induction false} ModifiersFollow(buffer: seq<char>, events: seq<Event>)
    requires |buffer| == SLOTS
    ensures var d := Run(buffer, events).dev;
            d.shift == ShiftHeld(events) && d.caps == (CapsPresses(events) % 2 == 1)
  {
    hide Decode, Queued, Slot, Handled, Modified;
    if events != [] {
      var n := |events| - 1;
      ModifiersFollow(buffer, events[..n]);
      if events[n].Interrupt? { HandledModifiers(Run(buffer, events[..n]).dev, events[n]); }
    }
  }

  lemma HandledModifiers(d: Device, e: Event)
    requires Sane(d) && e.Interrupt?
    ensures Handled(d, e.code).shift ==
            if e.code in {0x2A, 0x36} then true
            else if e.code in {0xAA, 0xB6} then false
            else d.shift
    ensures Handled(d, e.code).caps == if e.code == 0x3A then !d.caps else d.caps
  {
    hide Decode, Slot;
  }

  /** Under every interleaving of interrupts with the steps of the reader, what was
      delivered followed by what is waiting is what was accepted, in order, and never
      more than 255 wait. */
  lemma {:induction false} DeliveredInOrder(buffer: seq<char>, events: seq<Event>)
    requires |buffer| == SLOTS
    ensures var w := Run(buffer, events);
            w.delivered + Queued(w.dev) == Accepted(buffer, events) && |Queued(w.dev)| <= 255
  {
    if events != [] {
      var n := |events| - 1;
      var w, e := Run(buffer, events[..n]), events[n];
      DeliveredInOrder(buffer, events[..n]);
      ModifiersFollow(buffer, events[..n]);
      StepKeeps(w, e);
      TypesWhatIsDecoded(w, events[..n], e);
      assert w.delivered + (Queued(w.dev) + Types(events[..n], e))
             == (w.delivered + Queued(w.dev)) + Types(events[..n], e);
    }
  }

  lemma TypesWhatIsDecoded(w: World, events: seq<Event>, e: Event)
    requires w.dev.shift == ShiftHeld(events) && w.dev.caps == (CapsPresses(events) % 2 == 1)
    ensures e.Read? ==> Types(events, e) == []
    ensures e.Interrupt? ==>
              var c := Modified(w.dev.shift, w.dev.caps, e.code).2;
              Types(events, e) == if c == '\0' then [] else [c]
  {
    hide Decode, ShiftHeld, CapsPresses;
  }

  /** A character is typed after the first `k` events while the ring is full. */
  ghost predicate Overruns(buffer: seq<char>, events: seq<Event>, k: nat)
    requires |buffer| == SLOTS && k < |events|
  {
    |Queued(Run(buffer, events[..k]).dev)| == 255 && Types(events[..k], events[k]) != []
  }

  /** Nothing typed is lost exactly when no key press ever meets a full ring. */
  lemma {:induction false} LossOnlyWhenFull(buffer: seq<char>, events: seq<Event>)
    requires |buffer| == SLOTS
    ensures |Accepted(buffer, events)| <= |Typed(events)|
    ensures Accepted(buffer, events) == Typed(events) <==>
            forall k :: 0 <= k < |events| ==> !Overruns(buffer, events, k)
  {
    hide Run, Types, Queued;
    if events != [] {
      var n := |events| - 1;
      var prefix, last := events[..n], Types(events[..n], events[n]);
      LossOnlyWhenFull(buffer, prefix);
      DeliveredInOrder(buffer, prefix);
      assert |Accepted(buffer, prefix)| - |Run(buffer, prefix).delivered| == |Queued(Run(buffer, prefix).dev)|;
      AppendCancels(Accepted(buffer, prefix), Typed(prefix), last);
      assert Accepted(buffer, events) == Typed(events) <==>
             Accepted(buffer, prefix) == Typed(prefix) && !Overruns(buffer, events, n);
      SameOverruns(buffer, events);
    }
  }

  lemma AppendCancels(a: seq<char>, b: seq<char>, c: seq<char>)
    ensures a + c == b + c <==> a == b
    ensures c == [] ==> b + c == b
  {
    if a + c == b + c {
      assert |a + c| == |a| + |c| && |b + c| == |b| + |c|;
      assert a == (a + c)[..|a|] && b == (b + c)[..|b|];
    }
  }

  lemma SameOverruns(buffer: seq<char>, events: seq<Event>)
    requires |buffer| == SLOTS && events != []
    ensures (forall k :: 0 <= k < |events| ==> !Overruns(buffer, events, k)) <==>
            var n := |events| - 1;
            !Overruns(buffer, events, n) && forall k :: 0 <= k < n ==> !Overruns(buffer, events[..n], k)
  {
    hide Run, Types, Queued;
    var n := |events| - 1;
    forall k | 0 <= k < n
      ensures Overruns(buffer, events[..n], k) <==> Overruns(buffer, events, k)
    {
      assert events[..k] == events[..n][..k];
    }
    if forall k :: 0 <= k < |events| ==> !Overruns(buffer, events, k) {
      forall k | 0 <= k < n
        ensures !Overruns(buffer, events[..n], k)
      {
        assert !Overruns(buffer, events, k);
      }
    }
  }

  // ---- the driver ----

  class Driver {
    const buffer: array<char>
    var head: nat
    var tail: nat
    var shiftPressed: bool
    var capsLock: bool

    ghost predicate Valid()
      reads this, buffer
    {
      Sane(State())
    }

    ghost function State(): Device
      reads this, buffer
    {
      Device(buffer[..], head, tail, shiftPressed, capsLock)
    }

    constructor ()
      ensures Valid() && fresh(buffer)
      ensures State() == Start(buffer[..]).dev
    {
      buffer := new char[SLOTS];
      head, tail, shiftPressed, capsLock := 0, 0, false, false;
    }

    /** `keyboard_handler`, given the scan code it read from the port. */
    method Handler(code: nat)
      requires Valid()
      modifies this, buffer
      ensures Valid() && State() == Handled(old(State()), code)
    {
      hide Decode;
      if code == 0x2A || code == 0x36 {
        shiftPressed := true;
        return;
      }
      if code == 0xAA || code == 0xB6 {
        shiftPressed := false;
        return;
      }
      if code == 0x3A {
        capsLock := !capsLock;
        return;
      }
      if code >= 0x80 {
        return;
      }
      var c := Decode(shiftPressed, capsLock, code);
      if c != '\0' {
        var next := (head + 1) % SLOTS;
        if next != tail {
          buffer[head] := c;
          head := next;
        }
      }
    }

    method HasInput() returns (some: bool)
      requires Valid()
      ensures some <==> Queued(State()) != []
    {
      some := head != tail;
    }

    /** The part of `keyboard_read` after its wait, when no interrupt falls into it. */
    method Read() returns (c: char)
      requires Valid() && Queued(State()) != []
      modifies this`tail
      ensures Valid() && [c] + Queued(State()) == old(Queued(State()))
      ensures State() == old(State()).(tail := tail)
    {
      TailAdvances(State());
      c := buffer[tail];
      tail := (tail + 1) % SLOTS;
    }

    /** `keyboard_read` with its wait: while the ring is empty it halts until the next
        interrupt. It takes the first character that any of the arriving scan codes gives;
        `got` is false when none of them gives one. */
    method ReadWaiting(arrivals: seq<nat>) returns (got: bool, c: char, n: nat)
      requires Valid()
      modifies this, buffer
      ensures Valid() && n <= |arrivals|
      ensures forall k :: 0 <= k < n ==> Queued(HandledAll(old(State()), arrivals[..k])) == []
      ensures var d := HandledAll(old(State()), arrivals[..n]);
              if got then [c] + Queued(State()) == Queued(d) && State() == d.(tail := tail)
              else n == |arrivals| && Queued(d) == [] && State() == d
    {
      hide Handled, Queued;
      n, c := 0, '\0';
      var some := HasInput();
      while !some && n < |arrivals|
        invariant Valid() && n <= |arrivals| && State() == HandledAll(old(State()), arrivals[..n])
        invariant some <==> Queued(State()) != []
        invariant forall k :: 0 <= k < n ==> Queued(HandledAll(old(State()), arrivals[..k])) == []
      {
        assert arrivals[..n + 1][..n] == arrivals[..n];
        Handler(arrivals[n]);
        n := n + 1;
        some := HasInput();
      }
      if !some {
        return false, c, n;
      }
      got := true;
      c := Read();
    }
  }
}
