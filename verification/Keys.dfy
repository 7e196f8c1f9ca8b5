/**
 The arrow-key picker (src/cli/select.rs): decoding a byte stream that arrives
 in arbitrary reads, and the wrapping cursor the keys drive.
 */
module Keys {
  import opened Common

  datatype Key = Up | Down | Enter | Cancel | Other

  const ESC: byte := 0x1b
  const BRACKET: byte := 0x5b
  const LETTER_O: byte := 0x4f
  const LETTER_A: byte := 0x41
  const LETTER_B: byte := 0x42

  /** A byte that ends a CSI sequence. */
  predicate IsFinal(b: byte) {
    0x40 <= b <= 0x7e
  }

  /** `position(is final)`, or the length when there is none. */
  function FinalAt(bytes: seq<byte>): (n: nat)
    ensures n <= |bytes|
  {
    if bytes == [] || IsFinal(bytes[0]) then 0 else 1 + FinalAt(bytes[1..])
  }

  lemma {:induction false} FinalAtFinds(bytes: seq<byte>)
    ensures forall i | 0 <= i < FinalAt(bytes) :: !IsFinal(bytes[i])
    ensures FinalAt(bytes) < |bytes| ==> IsFinal(bytes[FinalAt(bytes)])
  {
    if bytes != [] && !IsFinal(bytes[0]) {
      FinalAtFinds(bytes[1..]);
      assert forall i | 0 < i < |bytes| :: bytes[i] == bytes[1..][i - 1];
    }
  }

  /** The key at the start of `bytes` and how many bytes it took. */
  function Decode(bytes: seq<byte>): (r: (Key, nat))
    ensures r.1 <= |bytes|
    ensures bytes != [] ==> r.1 >= 1
  {
    if bytes == [] then (Other, 0)
    else if bytes[0] == ESC then
      if |bytes| >= 3 && (bytes[1] == BRACKET || bytes[1] == LETTER_O) && bytes[2] == LETTER_A then (Up, 3)
      else if |bytes| >= 3 && (bytes[1] == BRACKET || bytes[1] == LETTER_O) && bytes[2] == LETTER_B then (Down, 3)
      else if |bytes| >= 3 && bytes[1] == LETTER_O then (Other, 3)
      else if |bytes| >= 2 && bytes[1] == BRACKET then
        var end := FinalAt(bytes[2..]);
        (Other, if end < |bytes| - 2 then end + 3 else |bytes|)
      else (Cancel, 1)
    else if bytes[0] == 0x0d || bytes[0] == 0x0a then (Enter, 1)
    else if bytes[0] == 0x03 || bytes[0] == 0x04 || bytes[0] == 0x71 || bytes[0] == 0x51 then (Cancel, 1)
    else if bytes[0] == 0x6b then (Up, 1)
    else if bytes[0] == 0x6a then (Down, 1)
    else (Other, 1)
  }

  /** `bytes` begins with an arrow in either of its two forms. */
  predicate Arrow(bytes: seq<byte>, letter: byte) {
    [0x1b, '[' as byte, letter] <= bytes || [0x1b, 'O' as byte, letter] <= bytes
  }

  /** An escape sequence opened by `[` or, with a byte behind it, by `O`. */
  predicate Introduced(bytes: seq<byte>) {
    [0x1b, '[' as byte] <= bytes || ([0x1b, 'O' as byte] <= bytes && |bytes| >= 3)
  }

  /**
   What counts as which key, and that an ignored sequence is taken whole: three
   bytes behind `O`; behind `[` up to and with its first byte from `@` to `~`, or
   everything when there is none. No other key takes more than one byte.
   */
  lemma DecodeMeans(bytes: seq<byte>)
    requires bytes != []
    ensures Decode(bytes).0 == Up <==> Arrow(bytes, 'A' as byte) || bytes[0] == 'k' as byte
    ensures Decode(bytes).0 == Down <==> Arrow(bytes, 'B' as byte) || bytes[0] == 'j' as byte
    ensures Decode(bytes).0 == Enter <==> bytes[0] == '\r' as byte || bytes[0] == '\n' as byte
    ensures Decode(bytes).0 == Cancel <==>
              bytes[0] in {3, 4, 'q' as byte, 'Q' as byte} || (bytes[0] == 0x1b && !Introduced(bytes))
    ensures !Introduced(bytes) ==> Decode(bytes).1 == 1
    ensures [0x1b, 'O' as byte] <= bytes && |bytes| >= 3 ==> Decode(bytes).1 == 3
    ensures [0x1b, '[' as byte] <= bytes ==>
              var used := Decode(bytes).1;
              && (forall i | 2 <= i < used - 1 :: !('@' as byte <= bytes[i] <= '~' as byte))
              && (used == |bytes| || (used >= 3 && '@' as byte <= bytes[used - 1] <= '~' as byte))
  {
    if [0x1b, '[' as byte] <= bytes {
      FinalAtFinds(bytes[2..]);
      assert forall i | 0 <= i < |bytes| - 2 :: bytes[2..][i] == bytes[i + 2];
    }
  }

  /** Every key of one buffer, in order. */
  function KeysOf(bytes: seq<byte>): seq<Key>
    decreases |bytes|
  {
    if bytes == [] then [] else [Decode(bytes).0] + KeysOf(bytes[Decode(bytes).1..])
  }

  // ----- where a read may end

  /** An escape sequence that more bytes would still change. */
  predicate Unfinished(bytes: seq<byte>) {
    && bytes != [] && bytes[0] == ESC
    && (|bytes| == 1
        || (|bytes| == 2 && bytes[1] == LETTER_O)
        || (bytes[1] == BRACKET && FinalAt(bytes[2..]) == |bytes| - 2))
  }

  /** Decoding `bytes` key by key ends inside an unfinished sequence. */
  predicate EndsOpen(bytes: seq<byte>)
    decreases |bytes|
  {
    bytes != [] && (Unfinished(bytes) || EndsOpen(bytes[Decode(bytes).1..]))
  }

  /** A finished key is decoded the same whatever follows it. */
  lemma DecodeStable(p: seq<byte>, s: seq<byte>)
    requires p != [] && !Unfinished(p)
    ensures Decode(p + s) == Decode(p)
  {
    assert (p + s)[0] == p[0];
    if p[0] == ESC && |p| >= 2 {
      assert (p + s)[1] == p[1];
      assert (p + s)[2..] == p[2..] + s;
      if p[1] == BRACKET {
        FinalAtStable(p[2..], s);
      }
      if |p| >= 3 {
        assert (p + s)[2] == p[2];
      }
    }
  }

  lemma {:induction false} FinalAtStable(p: seq<byte>, s: seq<byte>)
    requires FinalAt(p) < |p|
    ensures FinalAt(p + s) == FinalAt(p)
  {
    if p != [] && !IsFinal(p[0]) {
      assert (p + s)[1..] == p[1..] + s;
      FinalAtStable(p[1..], s);
    }
  }

  /** One finished key peels off both sides alike. */
  lemma FirstKeySplits(p: seq<byte>, s: seq<byte>)
    requires p != [] && !Unfinished(p)
    ensures var rest := p[Decode(p).1..];
      KeysOf(p + s) == KeysOf(p) + KeysOf(s) <==> KeysOf(rest + s) == KeysOf(rest) + KeysOf(s)
  {
    DecodeStable(p, s);
    var (key, used) := Decode(p);
    assert (p + s)[used..] == p[used..] + s;
    var one, two, three := KeysOf(p[used..] + s), KeysOf(p[used..]), KeysOf(s);
    assert KeysOf(p + s) == [key] + one && KeysOf(p) == [key] + two;
    assert ([key] + one)[1..] == one && ([key] + two + three)[1..] == two + three;
    assert [key] + two + three == [key] + (two + three);
  }

  lemma {:induction false} ClosedPrefixSplits(p: seq<byte>, s: seq<byte>)
    requires !EndsOpen(p)
    ensures KeysOf(p + s) == KeysOf(p) + KeysOf(s)
    decreases |p|
  {
    if p == [] {
      assert p + s == s;
    } else {
      FirstKeySplits(p, s);
      ClosedPrefixSplits(p[Decode(p).1..], s);
    }
  }

  /** What tells an unfinished sequence from the keys it was split into. */
  lemma UnfinishedMatters(p: seq<byte>) returns (s: seq<byte>)
    requires Unfinished(p)
    ensures KeysOf(p + s) != KeysOf(p) + KeysOf(s)
  {
    if |p| == 1 {
      s := [BRACKET, LETTER_A];
      assert p + s == [ESC, BRACKET, LETTER_A];
      assert KeysOf(p + s)[0] == Up && KeysOf(p)[0] == Cancel;
      assert (KeysOf(p) + KeysOf(s))[0] == Cancel;
    } else {
      s := [LETTER_A];
      assert |KeysOf(p) + KeysOf(s)| >= 2;
      OneLongKey(p);
    }
  }

  lemma OneLongKey(p: seq<byte>)
    requires Unfinished(p) && |p| >= 2
    ensures |KeysOf(p + [LETTER_A])| == 1
  {
    var q := p + [LETTER_A];
    assert q[0] == ESC && q[1] == p[1];
    if p[1] == BRACKET {
      assert q[2..] == p[2..] + [LETTER_A];
      var n := FinalAt(q[2..]);
      FinalAtFinds(p[2..]);
      FinalAtFinds(q[2..]);
      assert n == |p| - 2 by {
        assert forall i | 0 <= i < |p| - 2 :: q[2..][i] == p[2..][i];
        assert q[2..][|p| - 2] == LETTER_A && IsFinal(LETTER_A);
      }
    }
    assert Decode(q).1 == |q|;
    assert KeysOf(q[|q|..]) == [];
  }

  /** An open end anywhere carries over to the whole buffer. */
  lemma {:induction false} OpenEndMatters(p: seq<byte>) returns (s: seq<byte>)
    requires EndsOpen(p)
    ensures KeysOf(p + s) != KeysOf(p) + KeysOf(s)
    decreases |p|
  {
    if Unfinished(p) {
      s := UnfinishedMatters(p);
    } else {
      s := OpenEndMatters(p[Decode(p).1..]);
      FirstKeySplits(p, s);
    }
  }

  /** Ending a read after `p` is harmless whatever follows, exactly when `p` does not end inside a sequence. */
  lemma SplitHarmlessIff(p: seq<byte>)
    ensures (forall s :: KeysOf(p + s) == KeysOf(p) + KeysOf(s)) <==> !EndsOpen(p)
  {
    if EndsOpen(p) {
      var s := OpenEndMatters(p);
    } else {
      forall s
        ensures KeysOf(p + s) == KeysOf(p) + KeysOf(s)
      {
        ClosedPrefixSplits(p, s);
      }
    }
  }

  // ----- the test the reader uses

  /** `rposition(ESC)`, or -1. */
  function LastEsc(bytes: seq<byte>): (n: int)
    ensures -1 <= n < |bytes|
    ensures n >= 0 ==> bytes[n] == ESC
    ensures forall i | n < i < |bytes| :: bytes[i] != ESC
  {
    if bytes == [] then -1
    else if bytes[|bytes| - 1] == ESC then |bytes| - 1
    else LastEsc(bytes[..|bytes| - 1])
  }

  /** Whether the reader should wait for more: the bytes from the last ESC on look unfinished. */
  predicate IncompleteEscape(bytes: seq<byte>) {
    var esc := LastEsc(bytes);
    esc >= 0 && Unfinished(bytes[esc..])
  }

  /** Decoding reaches position `at` at the start of a key. */
  predicate StartsKey(bytes: seq<byte>, at: int)
    decreases |bytes|
  {
    at == 0 || (bytes != [] && at >= Decode(bytes).1 && StartsKey(bytes[Decode(bytes).1..], at - Decode(bytes).1))
  }

  /** The test is exact whenever the last ESC starts a key: it waits iff the buffer really ends open. */
  lemma {:induction false} TestExactAtKeyStart(p: seq<byte>)
    requires LastEsc(p) < 0 || StartsKey(p, LastEsc(p))
    ensures IncompleteEscape(p) <==> EndsOpen(p)
    decreases |p|
  {
    var e := LastEsc(p);
    if p != [] {
      var used := Decode(p).1;
      var rest := p[used..];
      if e == 0 {
        assert p[0..] == p;
        NoEscNotOpen(rest);
      } else if e > 0 {
        LastEscSuffix(p, used);
        assert rest[e - used..] == p[e..];
        OpenOrMore(p);
        TestExactAtKeyStart(rest);
      } else {
        NoEscNotOpen(p);
      }
    }
  }

  lemma {:induction false} NoEscNotOpen(p: seq<byte>)
    requires LastEsc(p) < 0
    ensures !EndsOpen(p)
    decreases |p|
  {
    if p != [] {
      var rest := p[Decode(p).1..];
      assert forall i | 0 <= i < |rest| :: rest[i] != ESC;
      NoEscNotOpen(rest);
    }
  }

  lemma LastEscSuffix(p: seq<byte>, used: nat)
    requires used <= LastEsc(p)
    ensures LastEsc(p[used..]) == LastEsc(p) - used
  {
    assert p[used..][LastEsc(p) - used] == ESC;
    assert forall i | LastEsc(p) - used < i < |p| - used :: p[used..][i] == p[used + i];
  }

  /** A key with a later ESC to start another one is finished. */
  lemma OpenOrMore(p: seq<byte>)
    requires p != [] && Decode(p).1 <= LastEsc(p)
    ensures !Unfinished(p)
  {
  }

  /** A key starts at `b` that the buffer does not finish. */
  ghost predicate OpenAt(p: seq<byte>, b: int) {
    0 <= b < |p| && StartsKey(p, b) && Unfinished(p[b..])
  }

  lemma {:induction false} OpenSomewhere(p: seq<byte>)
    ensures EndsOpen(p) <==> exists b :: OpenAt(p, b)
    decreases |p|
  {
    if p != [] {
      var used := Decode(p).1;
      var rest := p[used..];
      OpenSomewhere(rest);
      if Unfinished(p) {
        assert p[0..] == p && OpenAt(p, 0);
      } else if EndsOpen(p) {
        var b :| OpenAt(rest, b);
        assert p[used + b..] == rest[b..] && OpenAt(p, used + b);
      } else {
        forall b
          ensures !OpenAt(p, b)
        {
          if used <= b < |p| {
            assert p[b..] == rest[b - used..] && !OpenAt(rest, b - used);
          } else if b == 0 {
            assert p[b..] == p;
          }
        }
      }
    }
  }

  /**
   The exact way the test is fooled: it lets a buffer go that ends open iff that
   open sequence holds a further ESC which is not the last byte. Short of that,
   a read that the test lets go never changes which keys are decoded.
   */
  lemma TestFooledIff(p: seq<byte>)
    ensures EndsOpen(p) && !IncompleteEscape(p) <==> exists b :: OpenAt(p, b) && b < LastEsc(p) < |p| - 1
  {
    OpenSomewhere(p);
    forall b | OpenAt(p, b)
      ensures IncompleteEscape(p) <==> !(b < LastEsc(p) < |p| - 1)
    {
      TestAtOpen(p, b);
    }
  }

  lemma TestAtOpen(p: seq<byte>, b: int)
    requires 0 <= b < |p| && Unfinished(p[b..])
    ensures IncompleteEscape(p) <==> !(b < LastEsc(p) < |p| - 1)
  {
    var e := LastEsc(p);
    LastEscFrom(p, b);
    SuffixOfSuffix(p, b, e);
    TailOfOpen(p[b..], p[e..], e - b);
  }

  lemma TailOfOpen(q: seq<byte>, tail: seq<byte>, k: nat)
    requires Unfinished(q) && k < |q| && q[k] == ESC && tail == q[k..]
    ensures Unfinished(tail) <==> !(0 < k < |q| - 1)
  {
    if k == 0 {
      assert tail == q;
    } else {
      EscInsideOpen(q, k);
    }
  }

  lemma LastEscFrom(p: seq<byte>, b: int)
    requires 0 <= b < |p| && p[b..][0] == ESC
    ensures b <= LastEsc(p)
  {
    assert p[b..][0] == p[b];
  }

  /** A later ESC inside an unfinished sequence does not itself look unfinished, unless it is the last byte. */
  lemma EscInsideOpen(p: seq<byte>, e: int)
    requires Unfinished(p) && 0 < e < |p| && p[e] == ESC
    ensures Unfinished(p[e..]) <==> e == |p| - 1
  {
    FinalAtFinds(p[2..]);
    if e < |p| - 1 {
      assert p[2..][e - 1] == p[e + 1] && p[e..][1] == p[e + 1];
    }
  }

  /** A buffer the test is fooled by, and what follows it read as a key of its own. */
  lemma TestFooledExample()
    ensures !IncompleteEscape([ESC, BRACKET, ESC, 0x20])
    ensures KeysOf([ESC, BRACKET, ESC, 0x20] + [LETTER_A]) == [Other]
    ensures KeysOf([ESC, BRACKET, ESC, 0x20]) + KeysOf([LETTER_A]) == [Other, Other]
  {
    var p: seq<byte> := [ESC, BRACKET, ESC, 0x20];
    assert p[2..] == [ESC, 0x20] && p[2..][1..] == [0x20];
    assert FinalAt([0x20]) == 1 && FinalAt([ESC, 0x20]) == 2;
    var q := p + [LETTER_A];
    assert q[2..] == [ESC, 0x20, LETTER_A] && q[2..][1..] == [0x20, LETTER_A] && q[2..][1..][1..] == [LETTER_A];
    assert FinalAt([LETTER_A]) == 0 && FinalAt([0x20, LETTER_A]) == 1 && FinalAt([ESC, 0x20, LETTER_A]) == 2;
    assert KeysOf(q) == [Decode(q).0] + KeysOf(q[5..]);
    assert KeysOf(p) == [Decode(p).0] + KeysOf(p[4..]);
  }

  /** The key that starts at `b` is finished and reaches over the last ESC, whose tail looks unfinished. */
  ghost predicate Covers(p: seq<byte>, b: int) {
    var e := LastEsc(p);
    && 0 <= b < e && StartsKey(p, b) && !Unfinished(p[b..]) && e < b + Decode(p[b..]).1
    && Unfinished(p[e..])
  }

  /**
   The other way round: the test asks for more although no sequence is open iff
   the last ESC lies inside a finished key. Waiting then is idle: whatever comes
   or does not, the keys are those of the two parts.
   */
  lemma WaitsIdlyIff(p: seq<byte>)
    ensures IncompleteEscape(p) && !EndsOpen(p) <==> exists b :: Covers(p, b)
    ensures (exists b :: Covers(p, b)) ==> forall s :: KeysOf(p + s) == KeysOf(p) + KeysOf(s)
  {
    if IncompleteEscape(p) && !EndsOpen(p) {
      assert !StartsKey(p, LastEsc(p)) by {
        if StartsKey(p, LastEsc(p)) {
          TestExactAtKeyStart(p);
        }
      }
      var b := KeyOver(p, LastEsc(p));
      assert Covers(p, b);
    }
    if b :| Covers(p, b) {
      ClosedBehind(p, b);
      SplitHarmlessIff(p);
    }
  }

  /** A position at which no key starts is covered by a key. */
  lemma {:induction false} KeyOver(p: seq<byte>, e: nat) returns (b: nat)
    requires e < |p| && !StartsKey(p, e) && !EndsOpen(p)
    ensures b < e && StartsKey(p, b) && !Unfinished(p[b..]) && e < b + Decode(p[b..]).1
    decreases |p|
  {
    var used := Decode(p).1;
    assert p[0..] == p;
    if used > e {
      b := 0;
    } else {
      b := KeyOver(p[used..], e - used);
      b := b + used;
      assert p[b..] == p[used..][b - used..];
    }
  }

  lemma NoEscBehind(p: seq<byte>, used: nat)
    requires LastEsc(p) < used <= |p|
    ensures LastEsc(p[used..]) < 0
  {
    var rest := p[used..];
    assert forall i | 0 <= i < |rest| :: rest[i] != ESC;
  }

  lemma ClosedAfterFirst(p: seq<byte>)
    requires p != [] && !Unfinished(p) && LastEsc(p) < Decode(p).1
    ensures !EndsOpen(p)
  {
    NoEscBehind(p, Decode(p).1);
    NoEscNotOpen(p[Decode(p).1..]);
  }

  /** Nothing is open when a finished key reaches over the last ESC. */
  lemma {:induction false} ClosedBehind(p: seq<byte>, b: nat)
    requires b < |p| && StartsKey(p, b) && !Unfinished(p[b..]) && LastEsc(p) < b + Decode(p[b..]).1 && b <= LastEsc(p)
    ensures !EndsOpen(p)
    decreases |p|
  {
    if b == 0 {
      assert p[0..] == p;
      ClosedAfterFirst(p);
    } else {
      var used := Decode(p).1;
      LastEscSuffix(p, used);
      OpenOrMore(p);
      SuffixOfSuffix(p, used, b);
      ClosedBehind(p[used..], b - used);
    }
  }

  lemma SuffixOfSuffix(p: seq<byte>, b: nat, e: nat)
    requires b <= e <= |p|
    ensures p[b..][e - b..] == p[e..] && (e < |p| ==> p[b..][e - b] == p[e])
  {
  }

  lemma WaitsIdlyExample()
    ensures IncompleteEscape([ESC, LETTER_O, ESC]) && !EndsOpen([ESC, LETTER_O, ESC])
  {
    var p: seq<byte> := [ESC, LETTER_O, ESC];
    assert p[2..] == [ESC] && Decode(p) == (Other, 3) && p[3..] == [];
  }

  // ----- reading

  /** `buf` in `select`. */
  const BUFFER: nat := 32

  /**
   What the terminal has for its reader, in order: bytes that are there at once,
   silence longer than the wait for the tail of a sequence, or (no bytes) the
   end of input, which is never consumed.
   */
  datatype Arrival = Bytes(bytes: seq<byte>) | Silence

  /** What one read of at most `room` bytes takes. */
  function Front(bytes: seq<byte>, room: nat): seq<byte> {
    if |bytes| <= room then bytes else bytes[..room]
  }

  function LeftBy(arrivals: seq<Arrival>, room: nat): seq<Arrival>
    requires arrivals != [] && arrivals[0].Bytes?
  {
    if |arrivals[0].bytes| <= room then arrivals[1..] else [Bytes(arrivals[0].bytes[room..])] + arrivals[1..]
  }

  function Size(arrivals: seq<Arrival>): nat {
    if arrivals == [] then 0 else 1 + (if arrivals[0].Bytes? then |arrivals[0].bytes| else 0) + Size(arrivals[1..])
  }

  predicate Readable(arrivals: seq<Arrival>) {
    arrivals != [] && arrivals[0].Bytes? && arrivals[0].bytes != []
  }

  /** Reading on while the test asks, there is room, and more comes. */
  function Completed(buf: seq<byte>, arrivals: seq<Arrival>): (r: (seq<byte>, seq<Arrival>))
    ensures Size(r.1) <= Size(arrivals)
    decreases Size(arrivals)
  {
    if |buf| < BUFFER && IncompleteEscape(buf) && Readable(arrivals)
    then
      ReadShrinks(arrivals, BUFFER - |buf|);
      Completed(buf + Front(arrivals[0].bytes, BUFFER - |buf|), LeftBy(arrivals, BUFFER - |buf|))
    else (buf, arrivals)
  }

  /** One `read_keys`: silence before the first byte is only waiting. */
  function Gather(arrivals: seq<Arrival>): (r: (seq<byte>, seq<Arrival>))
    ensures Size(r.1) <= Size(arrivals) && (r.0 != [] ==> Size(r.1) < Size(arrivals))
  {
    if arrivals != [] && arrivals[0].Silence? then Gather(arrivals[1..])
    else if Readable(arrivals) then
      ReadShrinks(arrivals, BUFFER);
      Completed(Front(arrivals[0].bytes, BUFFER), LeftBy(arrivals, BUFFER))
    else ([], arrivals)
  }

  lemma ReadShrinks(arrivals: seq<Arrival>, room: nat)
    requires Readable(arrivals) && room > 0
    ensures Size(LeftBy(arrivals, room)) < Size(arrivals)
  {
    if |arrivals[0].bytes| > room {
      assert LeftBy(arrivals, room)[1..] == arrivals[1..];
    }
  }

  /** The buffers a loop of `read_keys` gets. */
  function Buffers(arrivals: seq<Arrival>): seq<seq<byte>>
    decreases Size(arrivals)
  {
    var (buf, left) := Gather(arrivals);
    if buf == [] then [] else [buf] + Buffers(left)
  }

  method ReadKeys(arrivals: seq<Arrival>) returns (buf: seq<byte>, left: seq<Arrival>)
    ensures (buf, left) == Gather(arrivals)
  {
    buf, left := [], arrivals;
    while left != [] && left[0].Silence?
      invariant Gather(left) == Gather(arrivals)
    {
      left := left[1..];
    }
    if left == [] || left[0].bytes == [] {
      return;
    }
    ReadShrinks(left, BUFFER);
    buf, left := Front(left[0].bytes, BUFFER), LeftBy(left, BUFFER);
    while |buf| < BUFFER && IncompleteEscape(buf)
      invariant Completed(buf, left) == Gather(arrivals)
      decreases Size(left)
    {
      if left == [] || left[0].Silence? {
        break;
      }
      var more := Front(left[0].bytes, BUFFER - |buf|);
      if more == [] {
        break;
      }
      ReadShrinks(left, BUFFER - |buf|);
      buf, left := buf + more, LeftBy(left, BUFFER - |buf|);
    }
  }

  /** All bytes up to the end of input. */
  function Typed(arrivals: seq<Arrival>): seq<byte> {
    if arrivals == [] || arrivals[0] == Bytes([]) then []
    else (if arrivals[0].Bytes? then arrivals[0].bytes else []) + Typed(arrivals[1..])
  }

  lemma TypedAfterRead(arrivals: seq<Arrival>, room: nat)
    requires Readable(arrivals) && room > 0
    ensures Typed(arrivals) == Front(arrivals[0].bytes, room) + Typed(LeftBy(arrivals, room))
  {
    var bytes := arrivals[0].bytes;
    if |bytes| > room {
      assert LeftBy(arrivals, room)[1..] == arrivals[1..];
      assert bytes == bytes[..room] + bytes[room..];
      Associate(bytes[..room], bytes[room..], Typed(arrivals[1..]));
    }
  }

  /** Why a `read_keys` returned. */
  predicate Stopped(buf: seq<byte>, left: seq<Arrival>) {
    !IncompleteEscape(buf) || |buf| == BUFFER || !Readable(left)
  }

  lemma {:induction false} CompletedKeeps(buf: seq<byte>, arrivals: seq<Arrival>)
    requires |buf| <= BUFFER
    ensures var (more, left) := Completed(buf, arrivals);
      more + Typed(left) == buf + Typed(arrivals) && |more| <= BUFFER && Stopped(more, left) && buf <= more
    decreases Size(arrivals)
  {
    if |buf| < BUFFER && IncompleteEscape(buf) && Readable(arrivals) {
      var room := BUFFER - |buf|;
      ReadShrinks(arrivals, room);
      TypedAfterRead(arrivals, room);
      var front, rest := Front(arrivals[0].bytes, room), LeftBy(arrivals, room);
      CompletedKeeps(buf + front, rest);
      Associate(buf, front, Typed(rest));
    }
  }

  /**
   No byte is lost, the buffer is never overrun, and the reader stops only for a
   reason; at an empty buffer nothing is left.
   */
  lemma {:induction false} GatherKeeps(arrivals: seq<Arrival>)
    ensures var (buf, left) := Gather(arrivals);
      buf + Typed(left) == Typed(arrivals) && |buf| <= 32 && Stopped(buf, left)
          && (buf == [] ==> Typed(arrivals) == [])
  {
    if arrivals != [] && arrivals[0].Silence? {
      GatherKeeps(arrivals[1..]);
    } else if Readable(arrivals) {
      TypedAfterRead(arrivals, BUFFER);
      CompletedKeeps(Front(arrivals[0].bytes, BUFFER), LeftBy(arrivals, BUFFER));
    }
  }

  /**
   When a read is enough and when the reader waits: a finished tail is returned
   at once, an unfinished one after a silence, and otherwise with what comes.
   */
  lemma WaitsWhenAsked(first: seq<byte>, more: seq<byte>, rest: seq<Arrival>)
    requires first != [] && more != [] && |first| + |more| <= 32
    ensures !IncompleteEscape(first) ==> Gather([Bytes(first)] + rest) == (first, rest)
    ensures Gather([Bytes(first)] + ([Silence] + rest)) == (first, [Silence] + rest)
    ensures IncompleteEscape(first) && !IncompleteEscape(first + more) ==>
              Gather([Bytes(first)] + ([Bytes(more)] + rest)) == (first + more, rest)
  {
    assert ([Bytes(first)] + rest)[1..] == rest;
    assert ([Bytes(first)] + ([Silence] + rest))[1..] == [Silence] + rest;
    var behind := [Bytes(more)] + rest;
    assert ([Bytes(first)] + behind)[1..] == behind && behind[1..] == rest;
    if IncompleteEscape(first) && !IncompleteEscape(first + more) {
      assert Completed(first + more, rest) == (first + more, rest);
      assert Completed(first, behind) == Completed(first + more, rest);
    }
  }

  // ----- the cursor

  datatype Step = Moved | Picked(index: nat) | Cancelled | Ignored

  class Cursor {
    var index: nat
    const len: nat

    constructor (len: nat, index: nat)
      ensures this.len == len
      ensures index < len ==> this.index == index
      ensures 0 < len <= index ==> this.index == len - 1
      ensures len == 0 ==> this.index == 0
    {
      this.len := len;
      this.index := if index <= (if len == 0 then 0 else len - 1) then index else if len == 0 then 0 else len - 1;
    }

    method Apply(key: Key) returns (step: Step)
      requires len == 0 || index < len
      modifies this
      ensures len == 0 || index < len
      ensures len == 0 ==> index == old(index) && step == (if key == Cancel then Cancelled else Ignored)
      ensures len > 0 ==> index == Turned(old(index), len, key)
      ensures len > 0 ==>
                step == match key
                        case Up => Moved
                        case Down => Moved
                        case Enter => Picked(old(index))
                        case Cancel => Cancelled
                        case Other => Ignored
    {
      if len > 0 {
        TurnedIsModular(index, len, key);
      }
      if key == Up && len > 0 {
        index := (index + len - 1) % len;
        return Moved;
      } else if key == Down && len > 0 {
        index := (index + 1) % len;
        return Moved;
      } else if key == Enter && len > 0 {
        return Picked(index);
      } else if key == Cancel {
        return Cancelled;
      } else {
        return Ignored;
      }
    }
  }

  /** The preselected row, clamped into the list. */
  function Start(len: nat, index: nat): (row: nat)
    ensures index < len ==> row == index
    ensures 0 < len <= index ==> row == len - 1
    ensures len == 0 ==> row == 0
  {
    Min(index, Max(len - 1, 0))
  }

  function Turn(key: Key): int {
    if key == Up then -1 else if key == Down then 1 else 0
  }

  /** The row a key leads to, wrapping at both ends. */
  function Turned(index: nat, len: nat, key: Key): (r: nat)
    requires index < len
    ensures r < len
  {
    if key == Up then (if index == 0 then len - 1 else index - 1)
    else if key == Down then (if index + 1 == len then 0 else index + 1)
    else index
  }

  /** Wrapping by case is arithmetic modulo the list's length. */
  lemma TurnedIsModular(index: nat, len: nat, key: Key)
    requires index < len
    ensures Turned(index, len, key) == (index + Turn(key)) % len
    ensures key == Up ==> Turned(index, len, key) == (index + len - 1) % len
  {
    var wraps := if key == Up && index == 0 then -1 else if key == Down && index + 1 == len then 1 else 0;
    ModUnique(index + Turn(key), wraps, Turned(index, len, key), len);
    Wrap(index + len + Turn(key), index + Turn(key), len);
  }

  /** Downs minus ups. */
  function Net(keys: seq<Key>): int {
    if keys == [] then 0 else Turn(keys[0]) + Net(keys[1..])
  }

  lemma MultipleSize(d: int, len: nat)
    ensures d >= 1 ==> d * len >= len
    ensures d <= -1 ==> d * len + len <= 0
  {
  }

  lemma ModUnique(x: int, q: int, r: int, len: nat)
    requires len > 0 && x == q * len + r && 0 <= r < len
    ensures x % len == r
  {
    var d := q - x / len;
    assert d * len == x % len - r;
    MultipleSize(d, len);
  }

  lemma Wrap(a: int, b: int, len: nat)
    requires len > 0 && a == b + len
    ensures a % len == b % len
  {
    ModUnique(a, b / len + 1, b % len, len);
  }

  lemma WrapAdds(a: int, b: int, len: nat)
    requires len > 0
    ensures (a % len + b) % len == (a + b) % len
  {
    var k := a / len;
    assert a == k * len + a % len;
    MultipleVanishes(a % len + b, k, len);
  }

  lemma {:induction false} MultipleVanishes(a: int, k: int, len: nat)
    requires len > 0
    ensures (a + k * len) % len == a % len
    decreases if k < 0 then -k else k
  {
    if k > 0 {
      MultipleVanishes(a, k - 1, len);
      Wrap(a + k * len, a + (k - 1) * len, len);
    } else if k < 0 {
      MultipleVanishes(a, k + 1, len);
      Wrap(a + (k + 1) * len, a + k * len, len);
    }
  }

  // ----- the picker's loop

  /** Playing keys from row `index`: the row at the first Enter, None at the first Cancel or when keys run out. */
  function Outcome(index: nat, len: nat, keys: seq<Key>): Option<nat>
    requires index < len
    decreases |keys|
  {
    if keys == [] || keys[0] == Cancel then None
    else if keys[0] == Enter then Some(index)
    else Outcome(Turned(index, len, keys[0]), len, keys[1..])
  }

  /** Everything decoded from the chunks, each on its own, up to the first empty one (end of input). */
  function KeysOfReads(chunks: seq<seq<byte>>): seq<Key> {
    if chunks == [] || chunks[0] == [] then [] else KeysOf(chunks[0]) + KeysOfReads(chunks[1..])
  }

  lemma PlayOne(index: nat, len: nat, key: Key, rest: seq<Key>)
    requires index < len
    ensures Outcome(index, len, [key] + rest)
         == if key == Cancel then None
            else if key == Enter then Some(index)
            else Outcome(Turned(index, len, key), len, rest)
  {
    assert ([key] + rest)[1..] == rest;
  }

  /** One `decode` in the loop: the key at `at`, where it ends, and the keys still ahead behind it. */
  method DecodeNext(buf: seq<byte>, at: nat, ghost later: seq<Key>, ghost ahead: seq<Key>)
    returns (key: Key, next: nat, ghost rest: seq<Key>)
    requires at < |buf| && ahead == KeysOf(buf[at..]) + later
    ensures at < next <= |buf|
    ensures rest == KeysOf(buf[next..]) + later && ahead == [key] + rest
  {
    var (k, used) := Decode(buf[at..]);
    key, next := k, at + Max(used, 1);
    assert Max(used, 1) == used && buf[at..][used..] == buf[next..];
    rest := KeysOf(buf[next..]) + later;
  }

  /** The inner loop of `select`: one buffer's keys. */
  method PlayBuffer(cursor: Cursor, buf: seq<byte>, ghost later: seq<Key>, ghost ahead: seq<Key>)
    returns (decision: Option<Option<nat>>)
    requires cursor.index < cursor.len && ahead == KeysOf(buf[0..]) + later
    modifies cursor
    ensures cursor.index < cursor.len
    ensures decision.Some? ==> Outcome(old(cursor.index), cursor.len, ahead) == decision.value
    ensures decision == None
        ==> Outcome(old(cursor.index), cursor.len, ahead) == Outcome(cursor.index, cursor.len, later)
  {
    var at := 0;
    ghost var goal := Outcome(cursor.index, cursor.len, ahead);
    ghost var left := ahead;
    while at < |buf|
      invariant 0 <= at <= |buf| && cursor.index < cursor.len
      invariant left == KeysOf(buf[at..]) + later
      invariant goal == Outcome(cursor.index, cursor.len, left)
    {
      var key;
      ghost var rest;
      key, at, rest := DecodeNext(buf, at, later, left);
      PlayOne(cursor.index, cursor.len, key, rest);
      left := rest;
      var step := cursor.Apply(key);
      if step.Picked? {
        return Some(Some(step.index));
      } else if step == Cancelled {
        return Some(None);
      }
    }
    assert left == later;
    return None;
  }

  /**
   What playing these keys on a list must give: at an Enter before any Cancel,
   the preselected row (the last one if there is none so far down) moved on by
   every Down and back by every Up, modulo the list; otherwise nothing.
   */
  ghost predicate Picks(len: nat, default: nat, keys: seq<Key>, outcome: Option<nat>)
    requires len > 0
  {
    && (Undecided(keys) ==> outcome == None)
    && forall k | Decisive(keys, k) ::
         outcome == if keys[k] == Cancel then None
                    else Some(((if default < len then default else len - 1)
                               + multiset(keys[..k])[Down] - multiset(keys[..k])[Up]) % len)
  }

  lemma {:induction false} NetCounts(keys: seq<Key>)
    ensures Net(keys) + multiset(keys)[Up] == multiset(keys)[Down]
  {
    if keys != [] {
      NetCounts(keys[1..]);
      assert keys == [keys[0]] + keys[1..];
    }
  }

  lemma OutcomePicks(len: nat, default: nat, keys: seq<Key>)
    requires len > 0
    ensures Picks(len, default, keys, Outcome(Start(len, default), len, keys))
  {
    if Undecided(keys) {
      OutcomeUndecided(Start(len, default), len, keys);
    }
    forall k | Decisive(keys, k)
      ensures Outcome(Start(len, default), len, keys)
           == if keys[k] == Cancel then None
              else Some(((if default < len then default else len - 1)
                         + multiset(keys[..k])[Down] - multiset(keys[..k])[Up]) % len)
    {
      OutcomeClosedForm(Start(len, default), len, keys, k);
      NetCounts(keys[..k]);
    }
  }

  /** `select` on a terminal. */
  method Select(len: nat, default: nat, arrivals: seq<Arrival>) returns (outcome: Option<nat>)
    ensures len == 0 ==> outcome == None
    ensures len > 0 ==> outcome == Outcome(Start(len, default), len, KeysOfReads(Buffers(arrivals)))
    ensures len > 0 ==> Picks(len, default, KeysOfReads(Buffers(arrivals)), outcome)
    ensures len > 0 && EscStartsKeys(Typed(arrivals)) && CutsAtKeyStarts(Buffers(arrivals)) ==>
              Picks(len, default, KeysOf(Typed(arrivals)), outcome)
  {
    if len == 0 {
      return None;
    }
    var cursor := new Cursor(len, default);
    outcome := PlayReads(cursor, arrivals);
    PicksFromReads(len, default, arrivals);
  }

  lemma PicksFromReads(len: nat, default: nat, arrivals: seq<Arrival>)
    requires len > 0
    ensures var outcome := Outcome(Start(len, default), len, KeysOfReads(Buffers(arrivals)));
      && Picks(len, default, KeysOfReads(Buffers(arrivals)), outcome)
      && (EscStartsKeys(Typed(arrivals)) && CutsAtKeyStarts(Buffers(arrivals)) ==>
            Picks(len, default, KeysOf(Typed(arrivals)), outcome))
  {
    OutcomePicks(len, default, KeysOfReads(Buffers(arrivals)));
    if EscStartsKeys(Typed(arrivals)) && CutsAtKeyStarts(Buffers(arrivals)) {
      SameKeys(arrivals);
    }
  }

  lemma SameKeys(arrivals: seq<Arrival>)
    requires EscStartsKeys(Typed(arrivals)) && CutsAtKeyStarts(Buffers(arrivals))
    ensures KeysOfReads(Buffers(arrivals)) == KeysOf(Typed(arrivals))
  {
    KeysSurviveIff(arrivals);
  }

  /** The key loop; an empty buffer is the end of input. */
  method PlayReads(cursor: Cursor, arrivals: seq<Arrival>) returns (outcome: Option<nat>)
    requires cursor.index < cursor.len
    modifies cursor
    ensures outcome == Outcome(old(cursor.index), cursor.len, KeysOfReads(Buffers(arrivals)))
  {
    var left := arrivals;
    while true
      invariant cursor.index < cursor.len
      invariant Outcome(old(cursor.index), cursor.len, KeysOfReads(Buffers(arrivals)))
             == Outcome(cursor.index, cursor.len, KeysOfReads(Buffers(left)))
      decreases Size(left)
    {
      ghost var ahead := KeysOfReads(Buffers(left));
      var buf;
      buf, left := ReadKeys(left);
      if buf == [] {
        return None;
      }
      assert buf[0..] == buf;
      var decision := PlayBuffer(cursor, buf, KeysOfReads(Buffers(left)), ahead);
      if decision.Some? {
        return decision.value;
      }
    }
  }

  ghost predicate Undecided(keys: seq<Key>) {
    forall i | 0 <= i < |keys| :: keys[i] != Enter && keys[i] != Cancel
  }

  /** Key `k` is the first Enter or Cancel. */
  ghost predicate Decisive(keys: seq<Key>, k: int) {
    0 <= k < |keys| && (keys[k] == Enter || keys[k] == Cancel) && Undecided(keys[..k])
  }

  /**
   The picked row in closed form: Enter before any Cancel picks the starting row
   moved by downs minus ups, modulo the list; Cancel first picks nothing.
   */
  lemma {:induction false} OutcomeClosedForm(index: nat, len: nat, keys: seq<Key>, k: int)
    requires index < len && Decisive(keys, k)
    ensures Outcome(index, len, keys) == if keys[k] == Enter then Some((index + Net(keys[..k])) % len) else None
    decreases |keys|
  {
    if k == 0 {
      ModUnique(index, 0, index, len);
    } else {
      assert keys[..k][0] == keys[0];
      var next := Turned(index, len, keys[0]);
      DecisiveLater(index, len, keys, k);
      OutcomeClosedForm(next, len, keys[1..], k - 1);
    }
  }

  lemma DecisiveLater(index: nat, len: nat, keys: seq<Key>, k: int)
    requires index < len && 0 < k < |keys|
    ensures Decisive(keys, k) ==> Decisive(keys[1..], k - 1)
    ensures (Turned(index, len, keys[0]) + Net(keys[1..][..k - 1])) % len == (index + Net(keys[..k])) % len
  {
    assert keys[..k] == [keys[0]] + keys[1..][..k - 1];
    assert keys[..k][1..] == keys[1..][..k - 1];
    TurnedIsModular(index, len, keys[0]);
    WrapAdds(index + Turn(keys[0]), Net(keys[1..][..k - 1]), len);
  }

  /** Without Enter or Cancel nothing is picked. */
  lemma {:induction false} OutcomeUndecided(index: nat, len: nat, keys: seq<Key>)
    requires index < len && Undecided(keys)
    ensures Outcome(index, len, keys) == None
    decreases |keys|
  {
    if keys != [] {
      OutcomeUndecided(Turned(index, len, keys[0]), len, keys[1..]);
    }
  }

  /** Splitting input into chunks that each end closed decodes to the keys of the whole. */
  lemma {:induction false} ReadsJoin(chunks: seq<seq<byte>>)
    requires forall i | 0 <= i < |chunks| :: chunks[i] != [] && (i < |chunks| - 1 ==> !EndsOpen(chunks[i]))
    ensures KeysOfReads(chunks) == KeysOf(Joined(chunks))
  {
    if |chunks| > 1 {
      ReadsJoin(chunks[1..]);
      ClosedPrefixSplits(chunks[0], Joined(chunks[1..]));
    } else if |chunks| == 1 {
      assert chunks[0] + Joined(chunks[1..]) == chunks[0];
    }
  }

  function Joined(chunks: seq<seq<byte>>): seq<byte> {
    if chunks == [] then [] else chunks[0] + Joined(chunks[1..])
  }

  /**
   Two ways of cutting the same input into reads pick the same row, provided
   every cut but the last falls where the reader's test lets go of a buffer
   whose last ESC starts a key.
   */
  lemma CutsDoNotMatter(len: nat, default: nat, chunks: seq<seq<byte>>, others: seq<seq<byte>>)
    requires Joined(chunks) == Joined(others) && WellCut(chunks) && WellCut(others) && len > 0
    ensures Outcome(Start(len, default), len, KeysOfReads(chunks))
         == Outcome(Start(len, default), len, KeysOfReads(others))
  {
    WellCutClosed(chunks);
    WellCutClosed(others);
    ReadsJoin(chunks);
    ReadsJoin(others);
  }

  ghost predicate WellCut(chunks: seq<seq<byte>>) {
    forall i | 0 <= i < |chunks| ::
      chunks[i] != [] && (i < |chunks| - 1 ==>
        !IncompleteEscape(chunks[i]) && (LastEsc(chunks[i]) < 0 || StartsKey(chunks[i], LastEsc(chunks[i]))))
  }

  lemma WellCutClosed(chunks: seq<seq<byte>>)
    requires WellCut(chunks)
    ensures forall i | 0 <= i < |chunks| - 1 :: !EndsOpen(chunks[i])
  {
    forall i | 0 <= i < |chunks| - 1
      ensures !EndsOpen(chunks[i])
    {
      TestExactAtKeyStart(chunks[i]);
    }
  }

  // ----- from the terminal's bytes to the picked row

  /** Every ESC of the stream starts a key. */
  ghost predicate EscStartsKeys(bytes: seq<byte>) {
    forall e | 0 <= e < |bytes| && bytes[e] == ESC :: StartsKey(bytes, e)
  }

  /** No silence falls inside a sequence; `before` is what came so far. */
  ghost predicate Unhurried(before: seq<byte>, arrivals: seq<Arrival>)
    decreases |arrivals|
  {
    arrivals == []
    || (arrivals[0].Silence? && !EndsOpen(before) && Unhurried(before, arrivals[1..]))
    || (arrivals[0].Bytes? && Unhurried(before + arrivals[0].bytes, arrivals[1..]))
  }

  /** No full buffer ends in what looks like an unfinished sequence. */
  ghost predicate FitsBuffers(arrivals: seq<Arrival>) {
    forall buf | buf in Buffers(arrivals) && |buf| == BUFFER :: !IncompleteEscape(buf)
  }

  lemma {:induction false} StartsKeyBehind(p: seq<byte>, s: seq<byte>, e: nat)
    requires !EndsOpen(p) && StartsKey(p + s, |p| + e)
    ensures StartsKey(s, e)
    decreases |p|
  {
    if p == [] {
      assert p + s == s;
    } else {
      DecodeStable(p, s);
      var used := Decode(p).1;
      assert (p + s)[used..] == p[used..] + s;
      StartsKeyBehind(p[used..], s, e);
    }
  }

  lemma {:induction false} StartsKeyWithin(p: seq<byte>, s: seq<byte>, e: nat)
    requires e < |p| && StartsKey(p + s, e)
    ensures StartsKey(p, e)
    decreases |p|
  {
    if e > 0 {
      if Unfinished(p) {
        if s == [] {
          assert p + s == p;
        } else {
          UnfinishedSwallows(p, s);
        }
      } else {
        DecodeStable(p, s);
        var used := Decode(p).1;
        assert (p + s)[used..] == p[used..] + s;
        StartsKeyWithin(p[used..], s, e - used);
      }
    }
  }

  /** An unfinished sequence, once continued, swallows what there was of it. */
  lemma UnfinishedSwallows(p: seq<byte>, s: seq<byte>)
    requires Unfinished(p) && |p| >= 2 && s != []
    ensures Decode(p + s).1 > |p|
  {
    var q := p + s;
    assert q[0] == ESC && q[1] == p[1] && q[2..] == p[2..] + s;
    FinalAtFinds(p[2..]);
    FinalAtFinds(q[2..]);
    assert forall i | 0 <= i < |p| - 2 :: q[2..][i] == p[2..][i];
  }

  lemma {:induction false} EndsOpenBehind(p: seq<byte>, s: seq<byte>)
    requires !EndsOpen(p)
    ensures EndsOpen(p + s) <==> EndsOpen(s)
    decreases |p|
  {
    if p == [] {
      assert p + s == s;
    } else {
      DecodeStable(p, s);
      var used := Decode(p).1;
      assert (p + s)[used..] == p[used..] + s;
      assert !Unfinished(p + s) by {
        FinishedStays(p, s);
      }
      EndsOpenBehind(p[used..], s);
    }
  }

  lemma FinishedStays(p: seq<byte>, s: seq<byte>)
    requires p != [] && !Unfinished(p)
    ensures !Unfinished(p + s)
  {
    var q := p + s;
    assert q[0] == p[0];
    if p[0] == ESC && |p| >= 2 {
      assert q[1] == p[1] && q[2..] == p[2..] + s;
      if p[1] == BRACKET {
        FinalAtStable(p[2..], s);
      }
    }
  }

  lemma {:induction false} UnhurriedBehind(p: seq<byte>, before: seq<byte>, arrivals: seq<Arrival>)
    requires !EndsOpen(p) && Unhurried(p + before, arrivals)
    ensures Unhurried(before, arrivals)
    decreases |arrivals|
  {
    if arrivals != [] {
      if arrivals[0].Silence? {
        EndsOpenBehind(p, before);
        UnhurriedBehind(p, before, arrivals[1..]);
      } else {
        Associate(p, before, arrivals[0].bytes);
        UnhurriedBehind(p, before + arrivals[0].bytes, arrivals[1..]);
      }
    }
  }

  lemma UnhurriedAfterRead(before: seq<byte>, arrivals: seq<Arrival>, room: nat)
    requires Readable(arrivals) && room > 0 && Unhurried(before, arrivals)
    ensures Unhurried(before + Front(arrivals[0].bytes, room), LeftBy(arrivals, room))
  {
    var bytes := arrivals[0].bytes;
    if |bytes| > room {
      assert LeftBy(arrivals, room)[1..] == arrivals[1..];
      Associate(before, bytes[..room], bytes[room..]);
      assert bytes == bytes[..room] + bytes[room..];
    }
  }

  lemma {:induction false} UnhurriedCompleted(buf: seq<byte>, arrivals: seq<Arrival>)
    requires Unhurried(buf, arrivals)
    ensures Unhurried(Completed(buf, arrivals).0, Completed(buf, arrivals).1)
    decreases Size(arrivals)
  {
    if |buf| < BUFFER && IncompleteEscape(buf) && Readable(arrivals) {
      var room := BUFFER - |buf|;
      ReadShrinks(arrivals, room);
      UnhurriedAfterRead(buf, arrivals, room);
      UnhurriedCompleted(buf + Front(arrivals[0].bytes, room), LeftBy(arrivals, room));
    }
  }

  lemma {:induction false} UnhurriedGathered(arrivals: seq<Arrival>)
    requires Unhurried([], arrivals)
    ensures Unhurried(Gather(arrivals).0, Gather(arrivals).1)
  {
    if arrivals != [] && arrivals[0].Silence? {
      UnhurriedGathered(arrivals[1..]);
    } else if Readable(arrivals) {
      UnhurriedAfterRead([], arrivals, BUFFER);
      assert [] + Front(arrivals[0].bytes, BUFFER) == Front(arrivals[0].bytes, BUFFER);
      UnhurriedCompleted(Front(arrivals[0].bytes, BUFFER), LeftBy(arrivals, BUFFER));
    }
  }

  /** A buffer with more to come ends between keys. */
  lemma BufferEndsClosed(arrivals: seq<Arrival>)
    requires EscStartsKeys(Typed(arrivals)) && Unhurried([], arrivals) && FitsBuffers(arrivals)
    requires Gather(arrivals).0 != [] && Typed(Gather(arrivals).1) != []
    ensures !EndsOpen(Gather(arrivals).0)
  {
    var (buf, left) := Gather(arrivals);
    GatherKeeps(arrivals);
    UnhurriedGathered(arrivals);
    var e := LastEsc(buf);
    if e >= 0 {
      assert (buf + Typed(left))[e] == ESC;
      StartsKeyWithin(buf, Typed(left), e);
    }
    TestExactAtKeyStart(buf);
    assert buf in Buffers(arrivals);
  }

  lemma RestOrderly(buf: seq<byte>, rest: seq<byte>, left: seq<Arrival>)
    requires !EndsOpen(buf) && EscStartsKeys(buf + rest) && Unhurried(buf, left)
    ensures EscStartsKeys(rest) && Unhurried([], left)
  {
    assert buf + [] == buf;
    UnhurriedBehind(buf, [], left);
    forall e | 0 <= e < |rest| && rest[e] == ESC
      ensures StartsKey(rest, e)
    {
      assert (buf + rest)[|buf| + e] == ESC;
      StartsKeyBehind(buf, rest, e);
    }
  }

  lemma NothingLeft(buf: seq<byte>, left: seq<Arrival>)
    requires buf != [] && Typed(left) == []
    ensures KeysOfReads([buf] + Buffers(left)) == KeysOf(buf + [])
  {
    GatherKeeps(left);
    assert ([buf] + [])[1..] == [];
    assert buf + [] == buf && KeysOf(buf) + [] == KeysOf(buf);
  }

  lemma {:induction false} BuffersJoin(arrivals: seq<Arrival>)
    requires EscStartsKeys(Typed(arrivals)) && Unhurried([], arrivals) && FitsBuffers(arrivals)
    ensures KeysOfReads(Buffers(arrivals)) == KeysOf(Typed(arrivals))
    decreases Size(arrivals)
  {
    var (buf, left) := Gather(arrivals);
    GatherKeeps(arrivals);
    if buf != [] {
      assert Buffers(arrivals)[1..] == Buffers(left);
      if Typed(left) == [] {
        NothingLeft(buf, left);
      } else {
        BufferEndsClosed(arrivals);
        UnhurriedGathered(arrivals);
        RestOrderly(buf, Typed(left), left);
        ClosedPrefixSplits(buf, Typed(left));
        assert forall b | b in Buffers(left) :: b in Buffers(arrivals);
        BuffersJoin(left);
      }
    }
  }

  // ----- exactly which cuts matter

  /** Every chunk but the last ends where a key of the whole stream starts. */
  ghost predicate CutsAtKeyStarts(chunks: seq<seq<byte>>) {
    chunks != [] ==> StartAtKeys(Joined(chunks), |chunks[0]|, chunks[1..])
  }

  /** These chunks of the stream, the first of them at `at`, all start where a key does. */
  ghost predicate StartAtKeys(stream: seq<byte>, at: nat, chunks: seq<seq<byte>>)
    decreases |chunks|
  {
    chunks != [] ==> StartsKey(stream, at) && StartAtKeys(stream, at + |chunks[0]|, chunks[1..])
  }

  /** A key that ends within `p` is decoded alike from `p` alone. */
  lemma DecodeWithin(p: seq<byte>, s: seq<byte>)
    requires p != [] && Decode(p + s).1 <= |p|
    ensures Decode(p) == Decode(p + s)
  {
    if s == [] {
      assert p + s == p;
    } else if !Unfinished(p) {
      DecodeStable(p, s);
    } else if |p| == 1 {
      assert (p + s)[0] == ESC;
    } else {
      UnfinishedSwallows(p, s);
    }
  }

  lemma EscStartsBehindKey(s: seq<byte>)
    requires s != [] && EscStartsKeys(s)
    ensures EscStartsKeys(s[Decode(s).1..])
  {
    var used := Decode(s).1;
    forall e | 0 <= e < |s| - used && s[used..][e] == ESC
      ensures StartsKey(s[used..], e)
    {
      assert s[used + e] == ESC && StartsKey(s, used + e);
    }
  }

  /** Bytes other than ESC are keys one by one. */
  lemma {:induction false} SingleBytes(q: seq<byte>, tail: seq<byte>)
    requires forall i | 0 <= i < |q| :: q[i] != ESC
    ensures |KeysOf(q + tail)| == |q| + |KeysOf(tail)|
    ensures EscStartsKeys(tail) ==> EscStartsKeys(q + tail)
  {
    if q == [] {
      assert q + tail == tail;
    } else {
      var s := q + tail;
      assert s[1..] == q[1..] + tail && s[0] == q[0] && Decode(s).1 == 1;
      SingleBytes(q[1..], tail);
      if EscStartsKeys(tail) {
        forall e | 0 <= e < |s| && s[e] == ESC
          ensures StartsKey(s, e)
        {
          assert e > 0 && s[1..][e - 1] == ESC;
        }
      }
    }
  }

  /** One cut: harmless at a key start; anywhere else the two parts have more keys than the whole. */
  lemma {:induction false} OneCut(p: seq<byte>, rest: seq<byte>)
    requires EscStartsKeys(p + rest) && rest != []
    ensures EscStartsKeys(rest)
    ensures StartsKey(p + rest, |p|) ==> KeysOf(p + rest) == KeysOf(p) + KeysOf(rest)
    ensures !StartsKey(p + rest, |p|) ==> |KeysOf(p + rest)| < |KeysOf(p)| + |KeysOf(rest)|
    decreases |p|
  {
    var s := p + rest;
    if p == [] {
      assert s == rest;
    } else {
      var (key, used) := Decode(s);
      EscStartsBehindKey(s);
      if used <= |p| {
        DecodeWithin(p, rest);
        assert s[used..] == p[used..] + rest;
        OneCut(p[used..], rest);
        Associate([key], KeysOf(p[used..]), KeysOf(rest));
      } else {
        CutInsideKey(p, rest);
      }
    }
  }

  lemma CutInsideKey(p: seq<byte>, rest: seq<byte>)
    requires p != [] && EscStartsKeys(p + rest) && |p| < Decode(p + rest).1
    ensures EscStartsKeys(rest) && |KeysOf(p + rest)| < |KeysOf(p)| + |KeysOf(rest)|
  {
    var s := p + rest;
    var used := Decode(s).1;
    var q, tail := rest[..used - |p|], s[used..];
    assert rest == q + tail;
    forall i | 0 <= i < |q|
      ensures q[i] != ESC
    {
      assert s[|p| + i] == q[i];
      assert !StartsKey(s, |p| + i);
    }
    EscStartsBehindKey(s);
    SingleBytes(q, tail);
    assert |KeysOf(p)| >= 1;
  }

  /** Behind a key start, key starts of the rest are key starts of the whole. */
  lemma {:induction false} StartsKeyShift(p: seq<byte>, rest: seq<byte>, e: nat)
    requires StartsKey(p + rest, |p|)
    ensures StartsKey(p + rest, |p| + e) <==> StartsKey(rest, e)
    decreases |p|
  {
    if p == [] {
      assert p + rest == rest;
    } else {
      var used := Decode(p + rest).1;
      assert (p + rest)[used..] == p[used..] + rest;
      StartsKeyShift(p[used..], rest, e);
    }
  }

  lemma {:induction false} StartAtKeysShift(p: seq<byte>, rest: seq<byte>, at: nat, chunks: seq<seq<byte>>)
    requires StartsKey(p + rest, |p|)
    ensures StartAtKeys(p + rest, |p| + at, chunks) <==> StartAtKeys(rest, at, chunks)
    decreases |chunks|
  {
    if chunks != [] {
      StartsKeyShift(p, rest, at);
      StartAtKeysShift(p, rest, at + |chunks[0]|, chunks[1..]);
    }
  }

  lemma CutsOfRest(chunks: seq<seq<byte>>)
    requires |chunks| > 1
    ensures CutsAtKeyStarts(chunks)
      <==> StartsKey(Joined(chunks), |chunks[0]|) && CutsAtKeyStarts(chunks[1..])
  {
    var p, rest := chunks[0], Joined(chunks[1..]);
    if StartsKey(p + rest, |p|) {
      StartAtKeysShift(p, rest, |chunks[1]|, chunks[1..][1..]);
    }
  }

  /** Any number of cuts, anywhere: the keys are those of the stream exactly when each cut is at a key start. */
  lemma {:induction false} CutsHarmlessIff(chunks: seq<seq<byte>>)
    requires EscStartsKeys(Joined(chunks)) && forall i | 0 <= i < |chunks| :: chunks[i] != []
    ensures KeysOfReads(chunks) == KeysOf(Joined(chunks)) <==> CutsAtKeyStarts(chunks)
    ensures |KeysOfReads(chunks)| >= |KeysOf(Joined(chunks))|
  {
    if |chunks| == 1 {
      assert chunks[0] + Joined(chunks[1..]) == chunks[0];
    } else if |chunks| > 1 {
      var p, rest := chunks[0], Joined(chunks[1..]);
      assert chunks[1] == chunks[1..][0] && rest != [];
      OneCut(p, rest);
      CutsHarmlessIff(chunks[1..]);
      CutsOfRest(chunks);
      if StartsKey(p + rest, |p|) {
        SamePrefix(KeysOf(p), KeysOfReads(chunks[1..]), KeysOf(rest));
      }
    }
  }

  lemma SamePrefix(a: seq<Key>, b: seq<Key>, c: seq<Key>)
    ensures a + b == a + c <==> b == c
  {
    assert (a + b)[|a|..] == b && (a + c)[|a|..] == c;
  }

  /** The buffers are the stream, cut. */
  lemma {:induction false} BuffersCover(arrivals: seq<Arrival>)
    ensures Joined(Buffers(arrivals)) == Typed(arrivals)
    ensures forall i | 0 <= i < |Buffers(arrivals)| :: Buffers(arrivals)[i] != []
    decreases Size(arrivals)
  {
    var (buf, left) := Gather(arrivals);
    GatherKeeps(arrivals);
    if buf != [] {
      BuffersCover(left);
      assert Buffers(arrivals)[1..] == Buffers(left);
    }
  }

  /**
   For every way the terminal delivers a stream in which each ESC starts a key,
   silence and full buffers included: the picker decodes the keys of the stream
   exactly when every buffer but the last ends at a key start of it.
   */
  lemma KeysSurviveIff(arrivals: seq<Arrival>)
    requires EscStartsKeys(Typed(arrivals))
    ensures Joined(Buffers(arrivals)) == Typed(arrivals)
    ensures KeysOfReads(Buffers(arrivals)) == KeysOf(Typed(arrivals)) <==> CutsAtKeyStarts(Buffers(arrivals))
  {
    BuffersCover(arrivals);
    CutsHarmlessIff(Buffers(arrivals));
  }

  /** No silence inside a sequence and no full buffer that looks unfinished are enough for that. */
  lemma UnhurriedCutsAtKeyStarts(arrivals: seq<Arrival>)
    requires EscStartsKeys(Typed(arrivals)) && Unhurried([], arrivals) && FitsBuffers(arrivals)
    ensures CutsAtKeyStarts(Buffers(arrivals))
  {
    BuffersJoin(arrivals);
    KeysSurviveIff(arrivals);
  }

  /** End to end: then the row `Select` picks is the outcome of the keys of the whole stream, however it arrives. */
  lemma PickedFromStream(len: nat, default: nat, arrivals: seq<Arrival>)
    requires len > 0 && EscStartsKeys(Typed(arrivals)) && CutsAtKeyStarts(Buffers(arrivals))
    ensures Outcome(Start(len, default), len, KeysOfReads(Buffers(arrivals)))
         == Outcome(Start(len, default), len, KeysOf(Typed(arrivals)))
  {
    KeysSurviveIff(arrivals);
  }

  /** Any number of `j` on a list of one row changes nothing. */
  lemma {:induction false} DownsOnOneRow(p: seq<byte>, rest: seq<byte>, later: seq<Key>)
    requires forall i | 0 <= i < |p| :: p[i] == 'j' as byte
    ensures Outcome(0, 1, KeysOf(p + rest) + later) == Outcome(0, 1, KeysOf(rest) + later)
  {
    if p == [] {
      assert p + rest == rest;
    } else {
      assert (p + rest)[1..] == p[1..] + rest && Decode(p + rest) == (Down, 1);
      DownsOnOneRow(p[1..], rest, later);
      Associate([Down], KeysOf(p[1..] + rest), later);
      PlayOne(0, 1, Down, KeysOf(p[1..] + rest) + later);
    }
  }

  /** 32 bytes and three more that are there at once: two reads. */
  lemma FullBufferThenRest(p: seq<byte>, q: seq<byte>)
    requires |p| == BUFFER && 0 < |q| <= BUFFER
    ensures Typed([Bytes(p + q)]) == p + q && Buffers([Bytes(p + q)]) == [p, q]
  {
    var all, left := [Bytes(p + q)], [Bytes(q)];
    assert all[1..] == [] && left[1..] == [];
    assert Typed(all) == p + q + Typed([]) == p + q;
    assert (p + q)[..BUFFER] == p && (p + q)[BUFFER..] == q;
    assert LeftBy(all, BUFFER) == left;
    assert Gather(all) == Completed(p, left) == (p, left);
    assert Gather(left) == Completed(q, []) == (q, []);
    assert Buffers(left) == [q] + Buffers([]);
  }

  /**
   A pasted line of 31 `j`, an arrow and Enter on a list of one row: the stream
   picks the row. The buffer is full after the arrow's ESC, which is taken for
   the Esc key, and the picker is cancelled.
   */
  lemma FullBufferCutsExample() returns (arrivals: seq<Arrival>)
    ensures EscStartsKeys(Typed(arrivals)) && Unhurried([], arrivals)
    ensures Outcome(Start(1, 0), 1, KeysOf(Typed(arrivals))) == Some(0)
    ensures Outcome(Start(1, 0), 1, KeysOfReads(Buffers(arrivals))) == None
  {
    var js: seq<byte> := seq(BUFFER - 1, _ => 'j' as byte);
    var tail := ArrowThenEnter();
    var p := js + [ESC];
    arrivals := [Bytes(p + tail)];
    FullBufferThenRest(p, tail);
    assert Unhurried([] + (p + tail), []) && arrivals[1..] == [];
    Associate(js, [ESC], tail);
    BehindDowns(js, [ESC] + tail);
    LoneEsc(js, tail);
  }

  lemma BehindDowns(js: seq<byte>, rest: seq<byte>)
    requires (forall i | 0 <= i < |js| :: js[i] == 'j' as byte) && EscStartsKeys(rest)
    ensures EscStartsKeys(js + rest) && Outcome(0, 1, KeysOf(js + rest)) == Outcome(0, 1, KeysOf(rest))
  {
    DownsOnOneRow(js, rest, []);
    assert KeysOf(js + rest) + [] == KeysOf(js + rest) && KeysOf(rest) + [] == KeysOf(rest);
    SingleBytes(js, rest);
  }

  /** An arrow and Enter: its ESC and what follows. */
  lemma ArrowThenEnter() returns (tail: seq<byte>)
    ensures |tail| == 3 && EscStartsKeys([ESC] + tail) && Outcome(0, 1, KeysOf([ESC] + tail)) == Some(0)
  {
    tail := [BRACKET, LETTER_A, '\r' as byte];
    var arrow, enter := [ESC] + tail, ['\r' as byte];
    assert arrow[3..] == enter && enter[1..] == [];
    assert KeysOf(enter) == [Enter] + [] == [Enter];
    assert Decode(arrow) == (Up, 3);
    PlayOne(0, 1, Up, [Enter]);
    PlayOne(0, 1, Enter, []);
    assert [Enter] + [] == [Enter];
  }

  lemma LoneEsc(js: seq<byte>, tail: seq<byte>)
    requires (forall i | 0 <= i < |js| :: js[i] == 'j' as byte) && tail != []
    ensures Outcome(0, 1, KeysOfReads([js + [ESC], tail])) == None
  {
    var chunks := [js + [ESC], tail];
    assert chunks[1..] == [tail];
    var later := KeysOfReads([tail]);
    DownsOnOneRow(js, [ESC], later);
    assert [ESC][1..] == [] && KeysOf([ESC]) == [Cancel] + [];
    PlayOne(0, 1, Cancel, later);
    assert KeysOf([ESC]) + later == [Cancel] + later;
  }
}
