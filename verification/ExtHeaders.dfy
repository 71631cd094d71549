/** The walk over a chain of IPv6 extension headers. */
module ExtHeaders {
  import opened Machine

  const FIXED := 40

  const TCP := 6
  const UDP := 17
  const FRAGMENT := 44
  const ICMP6 := 58
  const NONE := 59

  predicate IsUpper(nh: u8) { nh == TCP || nh == UDP || nh == ICMP6 }

  /** Parsed as (next header, length): Hop-by-Hop, Routing, Destination Options, and anything unknown. */
  predicate IsStandard(nh: u8) { nh != FRAGMENT && nh != NONE && !IsUpper(nh) }

  /** The next-header value to act on, and the offset reached. */
  datatype Cursor = Cursor(nh: u8, off: nat)

  datatype Outcome = Done(nh: u8, off: nat) | Truncated | Forever

  datatype Step = Go(c: Cursor) | Stop(o: Outcome)

  /** The header's length in bytes, computed in eight bits. */
  function ExtLen(hdrExtLen: u8): (n: nat) { (hdrExtLen + 1) % 256 * 8 }

  function StandardStep(data: seq<u8>, off: nat): Step {
    if off + 2 > |data| || off + ExtLen(data[off + 1]) > |data| then Stop(Truncated)
    else Go(Cursor(data[off], off + ExtLen(data[off + 1])))
  }

  /** One turn of the loop. */
  function Turn(data: seq<u8>, c: Cursor): Step {
    if c.nh == FRAGMENT then
      if c.off + 8 > |data| then Stop(Truncated) else Go(Cursor(data[c.off], c.off + 8))
    else if c.nh == NONE || IsUpper(c.nh) then Stop(Done(c.nh, c.off))
    else StandardStep(data, c.off)
  }

  /** The loop's outcome: it never ends once a turn stays where it is on a standard header. */
  function Walk(data: seq<u8>, c: Cursor): (o: Outcome)
    requires c.off <= |data|
    decreases |data| - c.off, if IsStandard(c.nh) then 1 else 0
  {
    match Turn(data, c)
    case Stop(o) => o
    case Go(c') => if c'.off == c.off && IsStandard(c'.nh) then Forever else Walk(data, c')
  }

  function Parse(data: seq<u8>): (o: Outcome) {
    if |data| < FIXED then Truncated else Walk(data, Cursor(data[6], FIXED))
  }

  // ----- what Walk says about the loop -----

  /** The loop after `n` turns, or where it stopped before. */
  function After(data: seq<u8>, c: Cursor, n: nat): Step {
    if n == 0 then Go(c) else
      match After(data, c, n - 1)
      case Stop(o) => Stop(o)
      case Go(c') => Turn(data, c')
  }

  lemma {:induction false} AfterFirst(data: seq<u8>, c: Cursor, n: nat)
    requires Turn(data, c).Go?
    ensures After(data, c, n + 1) == After(data, Turn(data, c).c, n)
  {
    if n > 0 { AfterFirst(data, c, n - 1); }
  }

  /** A standard header whose length wraps to zero and whose next-header byte is standard again. */
  predicate Stuck(data: seq<u8>, c: Cursor) {
    IsStandard(c.nh) && c.off + 2 <= |data| && data[c.off + 1] == 255 && IsStandard(data[c.off])
  }

  lemma StuckTurn(data: seq<u8>, c: Cursor)
    requires Stuck(data, c)
    ensures Turn(data, c).Go? && Stuck(data, Turn(data, c).c)
  {
  }

  /** Walk's outcome is the loop's: it stops with that outcome, or it gets stuck and runs for ever. */
  lemma {:induction false} WalkIsLoop(data: seq<u8>, c: Cursor) returns (n: nat)
    requires c.off <= |data|
    ensures !Walk(data, c).Forever? ==> After(data, c, n) == Stop(Walk(data, c))
    ensures Walk(data, c).Forever? ==> After(data, c, n).Go? && Stuck(data, After(data, c, n).c)
    decreases |data| - c.off, if IsStandard(c.nh) then 1 else 0
  {
    match Turn(data, c)
    case Stop(o) =>
      assert After(data, c, 0) == Go(c);
      n := 1;
    case Go(c') =>
      if c'.off == c.off && IsStandard(c'.nh) {
        n := 0;
      } else {
        var m := WalkIsLoop(data, c');
        AfterFirst(data, c, m);
        n := m + 1;
      }
  }

  /** What parsing returns is one of the four, wherever it ends. */
  lemma {:induction false} DoneIsUpper(data: seq<u8>, c: Cursor)
    requires c.off <= |data| && Walk(data, c).Done?
    ensures var nh := Walk(data, c).nh; nh == 6 || nh == 17 || nh == 58 || nh == 59
    decreases |data| - c.off, if IsStandard(c.nh) then 1 else 0
  {
    if Turn(data, c).Go? { DoneIsUpper(data, Turn(data, c).c); }
  }

  /** The walk ends at the fixed header exactly when that names TCP (6), UDP (17), ICMPv6 (58) or No Next
      Header (59): then the loop's first turn stops and the offset is 40. */
  lemma EndsAtOnceIff(data: seq<u8>)
    requires |data| >= 40
    ensures Parse(data) == Done(data[6], 40) <==> data[6] == 6 || data[6] == 17 || data[6] == 58 || data[6] == 59
    ensures After(data, Cursor(data[6], 40), 1) == Stop(Done(data[6], 40))
       <==> data[6] == 6 || data[6] == 17 || data[6] == 58 || data[6] == 59
  {
    if Parse(data).Done? { DoneIsUpper(data, Cursor(data[6], 40)); }
    assert After(data, Cursor(data[6], 40), 0) == Go(Cursor(data[6], 40));
  }

  lemma {:induction false} StoppedStays(data: seq<u8>, c: Cursor, n: nat, m: nat)
    requires After(data, c, n).Stop? && n <= m
    ensures After(data, c, m) == After(data, c, n)
    decreases m
  {
    if n < m { StoppedStays(data, c, n, m - 1); }
  }

  lemma {:induction false} GoPrefix(data: seq<u8>, c: Cursor, n: nat, m: nat)
    requires After(data, c, n).Go? && Stuck(data, After(data, c, n).c)
    ensures After(data, c, m).Go?
  {
    if m > n {
      GoPrefixStep(data, c, n, m - n);
    } else if After(data, c, m).Stop? {
      StoppedStays(data, c, m, n);
      assert false;
    }
  }

  lemma {:induction false} GoPrefixStep(data: seq<u8>, c: Cursor, n: nat, k: nat)
    requires After(data, c, n).Go? && Stuck(data, After(data, c, n).c)
    ensures After(data, c, n + k).Go? && Stuck(data, After(data, c, n + k).c)
  {
    if k > 0 {
      GoPrefixStep(data, c, n, k - 1);
      StuckTurn(data, After(data, c, n + k - 1).c);
      assert After(data, c, n + k) == Turn(data, After(data, c, n + k - 1).c);
    }
  }

  /** The loop never ends exactly when some turn reaches a stuck header. */
  lemma DivergesIff(data: seq<u8>, c: Cursor)
    requires c.off <= |data|
    ensures Walk(data, c).Forever? <==> exists n: nat :: After(data, c, n).Go? && Stuck(data, After(data, c, n).c)
    ensures Walk(data, c).Forever? <==> forall n: nat :: After(data, c, n).Go?
  {
    var k := WalkIsLoop(data, c);
    if Walk(data, c).Forever? {
      forall n: nat ensures After(data, c, n).Go? { GoPrefix(data, c, k, n); }
    } else {
      forall n: nat ensures !(After(data, c, n).Go? && Stuck(data, After(data, c, n).c)) {
        if After(data, c, n).Go? && Stuck(data, After(data, c, n).c) { GoPrefix(data, c, n, k); }
      }
    }
  }

  /** If no visited standard header has length byte 255, the loop ends. */
  lemma ShortHeadersTerminate(data: seq<u8>, c: Cursor)
    requires c.off <= |data|
    requires forall n: nat :: var s := After(data, c, n);
      s.Go? && IsStandard(s.c.nh) && s.c.off + 2 <= |data| ==> data[s.c.off + 1] != 255
    ensures !Walk(data, c).Forever?
  {
    DivergesIff(data, c);
  }

  /** Success leaves an offset inside the data, a multiple of eight, and a final protocol. */
  lemma {:induction false} DoneIsAligned(data: seq<u8>, c: Cursor)
    requires c.off <= |data| && c.off % 8 == 0 && Walk(data, c).Done?
    ensures var o := Walk(data, c); c.off <= o.off <= |data| && o.off % 8 == 0 && (o.nh == NONE || IsUpper(o.nh))
    decreases |data| - c.off, if IsStandard(c.nh) then 1 else 0
  {
    match Turn(data, c)
    case Stop(o) =>
    case Go(c') =>
      if !(c'.off == c.off && IsStandard(c'.nh)) { DoneIsAligned(data, c'); }
  }

  /** The loop of the source, for inputs on which it ends. */
  method ParseExtensionHeaders(data: seq<u8>) returns (o: Outcome)
    requires !Parse(data).Forever?
    ensures o == Parse(data)
  {
    if |data| < FIXED {
      return Truncated;
    }
    var nextHeader: u8, offset: nat := data[6], FIXED;
    while true
      invariant offset <= |data| && !Walk(data, Cursor(nextHeader, offset)).Forever?
      invariant Parse(data) == Walk(data, Cursor(nextHeader, offset))
      decreases |data| - offset, if IsStandard(nextHeader) then 1 else 0
    {
      if nextHeader == FRAGMENT {
        if offset + 8 > |data| {
          return Truncated;
        }
        nextHeader, offset := data[offset], offset + 8;
      } else if nextHeader == NONE || IsUpper(nextHeader) {
        return Done(nextHeader, offset);
      } else {
        if offset + 2 > |data| {
          return Truncated;
        }
        var extLen := ExtLen(data[offset + 1]);
        if offset + extLen > |data| {
          return Truncated;
        }
        nextHeader, offset := data[offset], offset + extLen;
      }
    }
  }

  /** The loop of the source for any number of turns, on any input. */
  method RunTurns(data: seq<u8>, turns: nat) returns (s: Step)
    ensures |data| < FIXED ==> s == Stop(Truncated)
    ensures |data| >= FIXED ==> s == After(data, Cursor(data[6], FIXED), turns)
  {
    if |data| < FIXED {
      return Stop(Truncated);
    }
    ghost var start := Cursor(data[6], FIXED);
    var nextHeader: u8, offset: nat := data[6], FIXED;
    for n := 0 to turns
      invariant offset <= |data| && After(data, start, n) == Go(Cursor(nextHeader, offset))
    {
      var stopped: Option<Outcome> := None;
      if nextHeader == FRAGMENT {
        if offset + 8 > |data| {
          stopped := Some(Truncated);
        } else {
          nextHeader, offset := data[offset], offset + 8;
        }
      } else if nextHeader == NONE || IsUpper(nextHeader) {
        stopped := Some(Done(nextHeader, offset));
      } else if offset + 2 > |data| || offset + ExtLen(data[offset + 1]) > |data| {
        stopped := Some(Truncated);
      } else {
        nextHeader, offset := data[offset], offset + ExtLen(data[offset + 1]);
      }
      if stopped.Some? {
        StoppedStays(data, start, n + 1, turns);
        return Stop(stopped.value);
      }
    }
    s := Go(Cursor(nextHeader, offset));
  }

  // ----- packets built from a chain -----

  /** An extension header: its protocol number, its second byte, and the bytes behind. */
  datatype Header = Header(kind: u8, second: u8, rest: seq<u8>)

  /** Fragment headers have 8 bytes; the others 8 times the second byte plus 8. */
  function Size(h: Header): (n: nat)
    ensures n >= 8
  {
    if h.kind == FRAGMENT then 8 else (h.second + 1) * 8
  }

  predicate WellFormed(h: Header) {
    (h.kind == FRAGMENT || IsStandard(h.kind)) && |h.rest| == Size(h) - 2
  }

  /** A chain of well-formed headers ending in a final protocol. */
  datatype Chain = Chain(headers: seq<Header>, upper: u8)

  predicate ChainOk(ch: Chain) {
    (ch.upper == NONE || IsUpper(ch.upper)) && forall i :: 0 <= i < |ch.headers| ==> WellFormed(ch.headers[i])
  }

  function First(hs: seq<Header>, upper: u8): u8 { if hs == [] then upper else hs[0].kind }

  function HeaderBytes(hs: seq<Header>, upper: u8): (b: seq<u8>)
    decreases |hs|
  {
    if hs == [] then [] else [First(hs[1..], upper), hs[0].second] + hs[0].rest + HeaderBytes(hs[1..], upper)
  }

  function TotalSize(hs: seq<Header>): (n: nat)
    decreases |hs|
  {
    if hs == [] then 0 else Size(hs[0]) + TotalSize(hs[1..])
  }

  /** A packet: the fixed header with its next-header byte set, the chain, any payload. */
  function Build(fixedHeader: seq<u8>, ch: Chain, payload: seq<u8>): (data: seq<u8>)
    requires |fixedHeader| == FIXED
  {
    fixedHeader[6 := First(ch.headers, ch.upper)] + HeaderBytes(ch.headers, ch.upper) + payload
  }

  /** The chain's headers lie in the data from `off` on. */
  predicate ChainAt(data: seq<u8>, off: nat, hs: seq<Header>, upper: u8)
    decreases |hs|
  {
    if hs == [] then off <= |data| else
      && off + Size(hs[0]) <= |data|
      && data[off] == First(hs[1..], upper) && data[off + 1] == hs[0].second
      && ChainAt(data, off + Size(hs[0]), hs[1..], upper)
  }

  lemma Regroup(front: seq<u8>, head: seq<u8>, tail: seq<u8>, payload: seq<u8>)
    requires |head| >= 2
    ensures var data := front + (head + tail) + payload;
      data == front + head + tail + payload && data[|front|] == head[0] && data[|front| + 1] == head[1]
  {
  }

  lemma {:induction false} BytesAreChain(front: seq<u8>, hs: seq<Header>, upper: u8, payload: seq<u8>)
    requires forall i :: 0 <= i < |hs| ==> WellFormed(hs[i])
    ensures ChainAt(front + HeaderBytes(hs, upper) + payload, |front|, hs, upper)
    decreases |hs|
  {
    if hs != [] {
      var head := [First(hs[1..], upper), hs[0].second] + hs[0].rest;
      Regroup(front, head, HeaderBytes(hs[1..], upper), payload);
      BytesAreChain(front + head, hs[1..], upper, payload);
    }
  }

  lemma BuildHasChain(fixedHeader: seq<u8>, ch: Chain, payload: seq<u8>)
    requires |fixedHeader| == FIXED && ChainOk(ch)
    ensures var data := Build(fixedHeader, ch, payload);
      |data| >= FIXED && data[6] == First(ch.headers, ch.upper) && ChainAt(data, FIXED, ch.headers, ch.upper)
  {
    BytesAreChain(fixedHeader[6 := First(ch.headers, ch.upper)], ch.headers, ch.upper, payload);
  }

  /** No header so long that its length does not fit in eight bits. */
  predicate Fits(h: Header) { h.kind == FRAGMENT || h.second <= 254 }

  /** A header that fits is walked over. */
  lemma WalkOver(data: seq<u8>, off: nat, hs: seq<Header>, upper: u8)
    requires ChainAt(data, off, hs, upper) && hs != [] && off <= |data| && WellFormed(hs[0]) && Fits(hs[0])
    ensures off + Size(hs[0]) <= |data| && ChainAt(data, off + Size(hs[0]), hs[1..], upper)
    ensures Walk(data, Cursor(First(hs, upper), off)) == Walk(data, Cursor(First(hs[1..], upper), off + Size(hs[0])))
  {
    assert Turn(data, Cursor(hs[0].kind, off)) == Go(Cursor(First(hs[1..], upper), off + Size(hs[0])));
  }

  lemma {:induction false} WalkChain(data: seq<u8>, off: nat, hs: seq<Header>, upper: u8)
    requires ChainAt(data, off, hs, upper) && off <= |data| && (upper == NONE || IsUpper(upper))
    requires forall i :: 0 <= i < |hs| ==> WellFormed(hs[i]) && Fits(hs[i])
    ensures Walk(data, Cursor(First(hs, upper), off)) == Done(upper, off + TotalSize(hs))
    decreases |hs|
  {
    if hs != [] {
      WalkOver(data, off, hs, upper);
      WalkChain(data, off + Size(hs[0]), hs[1..], upper);
    }
  }

  /** A header too long for its length byte that is followed by a fragment header. */
  predicate LongBeforeFragment(hs: seq<Header>, i: nat) {
    i + 1 < |hs| && !Fits(hs[i]) && hs[i + 1].kind == FRAGMENT
  }

  lemma WalkAtLong(data: seq<u8>, c: Cursor)
    requires IsStandard(c.nh) && c.off + 2 <= |data| && data[c.off + 1] == 255 && data[c.off] != FRAGMENT
    ensures Walk(data, c) == if IsStandard(data[c.off]) then Forever else Done(data[c.off], c.off)
  {
    var next := Cursor(data[c.off], c.off);
    assert Turn(data, c) == Go(next);
    assert !IsStandard(next.nh) ==> Walk(data, next) == Done(next.nh, next.off);
  }

  /** With a fragment header behind, the long header is taken for one itself: a byte of its body decides. */
  lemma WalkAtLongFragment(data: seq<u8>, c: Cursor)
    requires IsStandard(c.nh) && c.off + 16 <= |data|
    requires data[c.off] == FRAGMENT && data[c.off + 1] == 255 && data[c.off + 8] == NONE
    ensures Walk(data, c) == Done(NONE, c.off + 16)
  {
    var c1, c2, c3 := Cursor(FRAGMENT, c.off), Cursor(FRAGMENT, c.off + 8), Cursor(NONE, c.off + 16);
    assert Turn(data, c) == Go(c1) && Turn(data, c1) == Go(c2) && Turn(data, c2) == Go(c3);
    assert Walk(data, c3) == Done(NONE, c.off + 16);
    assert Walk(data, c2) == Walk(data, c3);
    assert Walk(data, c1) == Walk(data, c2);
  }

  /** The byte behind the first eight of a header ends the walk when it is taken for a next-header value. */
  predicate Trap(data: seq<u8>, at: nat) { at + 16 <= |data| && data[at + 8] == NONE }

  lemma TotalSizeSplit(hs: seq<Header>, k: nat)
    requires 0 < k <= |hs|
    ensures TotalSize(hs[..k]) == Size(hs[0]) + TotalSize(hs[1..][..k - 1])
  {
    assert hs[1..][..k - 1] == hs[..k][1..];
  }

  /** A header too long is taken for a shorter one: the walk stops short or never ends. */
  lemma {:induction false} WalkLongChain(data: seq<u8>, off: nat, hs: seq<Header>, upper: u8, k: nat)
    requires ChainAt(data, off, hs, upper) && off <= |data| && (upper == NONE || IsUpper(upper))
    requires forall i :: 0 <= i < |hs| ==> WellFormed(hs[i])
    requires k < |hs| && !Fits(hs[k]) && forall i :: 0 <= i < k ==> Fits(hs[i])
    requires !LongBeforeFragment(hs, k) || Trap(data, off + TotalSize(hs[..k]))
    ensures Walk(data, Cursor(First(hs, upper), off)) != Done(upper, off + TotalSize(hs))
    decreases |hs|
  {
    if k > 0 {
      TotalSizeSplit(hs, k);
      WalkOver(data, off, hs, upper);
      WalkLongChain(data, off + Size(hs[0]), hs[1..], upper, k - 1);
    } else {
      assert hs[..0] == [];
      if First(hs[1..], upper) == FRAGMENT {
        WalkAtLongFragment(data, Cursor(hs[0].kind, off));
      } else {
        WalkAtLong(data, Cursor(hs[0].kind, off));
      }
    }
  }

  lemma {:induction false} FirstLong(hs: seq<Header>) returns (k: nat)
    requires exists i :: 0 <= i < |hs| && !Fits(hs[i])
    ensures k < |hs| && !Fits(hs[k]) && forall i :: 0 <= i < k ==> Fits(hs[i])
    decreases |hs|
  {
    if !Fits(hs[0]) { k := 0; } else { var j := FirstLong(hs[1..]); k := j + 1; }
  }

  /** The walk finds the end of a built chain, whatever the payload, exactly when every header fits;
      behind a fragment header right after a too long one the contents decide. */
  lemma ParseBuiltIff(fixedHeader: seq<u8>, ch: Chain, payload: seq<u8>)
    requires |fixedHeader| == FIXED && ChainOk(ch)
    ensures var parsed := Parse(Build(fixedHeader, ch, payload)); var right := Done(ch.upper, FIXED + TotalSize(ch.headers));
      && ((forall i :: 0 <= i < |ch.headers| ==> Fits(ch.headers[i])) ==> parsed == right)
      && ((forall i :: 0 <= i < |ch.headers| ==> !LongBeforeFragment(ch.headers, i)) && parsed == right
          ==> forall i :: 0 <= i < |ch.headers| ==> Fits(ch.headers[i]))
  {
    var data := Build(fixedHeader, ch, payload);
    BuildHasChain(fixedHeader, ch, payload);
    if forall i :: 0 <= i < |ch.headers| ==> Fits(ch.headers[i]) {
      WalkChain(data, FIXED, ch.headers, ch.upper);
    } else {
      var k := FirstLong(ch.headers);
      if !LongBeforeFragment(ch.headers, k) {
        WalkLongChain(data, FIXED, ch.headers, ch.upper, k);
      }
    }
  }

  // ----- what does not depend on the contents -----

  /** A header's form: its kind and second byte. */
  datatype Form = Form(kind: u8, second: u8)

  predicate FormOk(f: Form) { f.kind == FRAGMENT || IsStandard(f.kind) }

  predicate FormFits(f: Form) { f.kind == FRAGMENT || f.second <= 254 }

  function Forms(hs: seq<Header>): (fs: seq<Form>) {
    seq(|hs|, i requires 0 <= i < |hs| => Form(hs[i].kind, hs[i].second))
  }

  /** Headers of the given forms, each body empty but for one byte. */
  function Filled(fs: seq<Form>): (hs: seq<Header>)
    ensures |hs| == |fs| && Forms(hs) == fs
    ensures (forall i :: 0 <= i < |fs| ==> FormOk(fs[i])) ==> forall i :: 0 <= i < |hs| ==> WellFormed(hs[i])
  {
    seq(|fs|, i requires 0 <= i < |fs| => Header(fs[i].kind, fs[i].second, Body(Size(Header(fs[i].kind, fs[i].second, [])) - 2)))
  }

  function Body(n: nat): (b: seq<u8>)
    requires n >= 6
    ensures |b| == n && (n > 6 ==> b[6] == NONE)
  {
    seq(n, i => if i == 6 then NONE else 0)
  }

  /** Where a body's byte lies in the data. */
  lemma {:induction false} BodyAt(front: seq<u8>, hs: seq<Header>, upper: u8, payload: seq<u8>, k: nat)
    requires k < |hs| && (forall i :: 0 <= i < |hs| ==> WellFormed(hs[i])) && |hs[k].rest| > 6
    ensures var data, at := front + HeaderBytes(hs, upper) + payload, |front| + TotalSize(hs[..k]);
      at + 16 <= |data| && data[at + 8] == hs[k].rest[6]
    decreases |hs|
  {
    var head := [First(hs[1..], upper), hs[0].second] + hs[0].rest;
    Regroup(front, head, HeaderBytes(hs[1..], upper), payload);
    if k > 0 {
      TotalSizeSplit(hs, k);
      BodyAt(front + head, hs[1..], upper, payload, k - 1);
    } else {
      assert hs[..0] == [];
      assert (front + head)[|front| + 8] == head[8] == hs[0].rest[6];
    }
  }

  /** Every packet with headers of these forms, whatever their bodies and the payload, is parsed right. */
  ghost predicate AlwaysRight(fs: seq<Form>, upper: u8) {
    forall fixedHeader: seq<u8>, hs: seq<Header>, payload: seq<u8> ::
      |fixedHeader| == FIXED && ChainOk(Chain(hs, upper)) && Forms(hs) == fs ==>
        Parse(Build(fixedHeader, Chain(hs, upper), payload)) == Done(upper, FIXED + TotalSize(hs))
  }

  lemma FitsParsesRight(fixedHeader: seq<u8>, hs: seq<Header>, upper: u8, payload: seq<u8>)
    requires |fixedHeader| == FIXED && ChainOk(Chain(hs, upper)) && forall i :: 0 <= i < |hs| ==> Fits(hs[i])
    ensures Parse(Build(fixedHeader, Chain(hs, upper), payload)) == Done(upper, FIXED + TotalSize(hs))
  {
    BuildHasChain(fixedHeader, Chain(hs, upper), payload);
    WalkChain(Build(fixedHeader, Chain(hs, upper), payload), FIXED, hs, upper);
  }

  lemma LongParsesWrong(fs: seq<Form>, upper: u8)
    requires (upper == NONE || IsUpper(upper)) && forall i :: 0 <= i < |fs| ==> FormOk(fs[i])
    requires exists i :: 0 <= i < |fs| && !FormFits(fs[i])
    ensures !AlwaysRight(fs, upper)
  {
    var hs := Filled(fs);
    var j :| 0 <= j < |fs| && !FormFits(fs[j]);
    assert Forms(hs)[j] == fs[j];
    assert !Fits(hs[j]);
    var k := FirstLong(hs);
    TrappedParsesWrong(hs, upper, k);
  }

  lemma TrappedParsesWrong(hs: seq<Header>, upper: u8, k: nat)
    requires ChainOk(Chain(hs, upper)) && k < |hs| && !Fits(hs[k]) && forall i :: 0 <= i < k ==> Fits(hs[i])
    requires |hs[k].rest| > 6 && hs[k].rest[6] == NONE
    ensures !AlwaysRight(Forms(hs), upper)
  {
    var fixedHeader: seq<u8> := seq(FIXED, _ => 0);
    var data := Build(fixedHeader, Chain(hs, upper), []);
    BuildHasChain(fixedHeader, Chain(hs, upper), []);
    BodyAt(fixedHeader[6 := First(hs, upper)], hs, upper, [], k);
    WalkLongChain(data, FIXED, hs, upper, k);
    assert Parse(data) != Done(upper, FIXED + TotalSize(hs));
  }

  /** Headers of given forms are parsed right, whatever they and the payload contain, exactly when every
      header's length fits in eight bits. */
  lemma ParseRightIff(fs: seq<Form>, upper: u8)
    requires (upper == NONE || IsUpper(upper)) && forall i :: 0 <= i < |fs| ==> FormOk(fs[i])
    ensures AlwaysRight(fs, upper) <==> forall i :: 0 <= i < |fs| ==> FormFits(fs[i])
  {
    if forall i :: 0 <= i < |fs| ==> FormFits(fs[i]) {
      forall fixedHeader: seq<u8>, hs: seq<Header>, payload: seq<u8>
        | |fixedHeader| == FIXED && ChainOk(Chain(hs, upper)) && Forms(hs) == fs
        ensures Parse(Build(fixedHeader, Chain(hs, upper), payload)) == Done(upper, FIXED + TotalSize(hs))
      {
        assert forall i :: 0 <= i < |hs| ==> Form(hs[i].kind, hs[i].second) == Forms(hs)[i];
        FitsParsesRight(fixedHeader, hs, upper, payload);
      }
    } else {
      LongParsesWrong(fs, upper);
    }
  }
}
