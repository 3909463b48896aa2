/** SLIP framing: the encoder, the resynchronising decoder as a function of what is read, and
    the exact set of byte strings the decoder takes for a frame. */
module Slip {
  import opened Bytes
  import opened Link

  const END: byte := 0xC0
  const ESC: byte := 0xDB
  const ESC_END: byte := 0xDC
  const ESC_ESC: byte := 0xDD

  // ---------------------------------------------------------------- encoding

  function EscapeByte(b: byte): seq<byte> {
    if b == END then [ESC, ESC_END] else if b == ESC then [ESC, ESC_ESC] else [b]
  }

  function Escape(p: seq<byte>): (s: seq<byte>)
    ensures END !in s
    ensures |s| >= |p|
  {
    if p == [] then [] else EscapeByte(p[0]) + Escape(p[1..])
  }

  function Frame(p: seq<byte>): seq<byte> { [END] + Escape(p) + [END] }

  lemma {:induction false} EscapeAppend(a: seq<byte>, b: seq<byte>)
    ensures Escape(a + b) == Escape(a) + Escape(b)
  {
    if a == [] {
      assert a + b == b;
    } else {
      assert (a + b)[1..] == a[1..] + b;
      EscapeAppend(a[1..], b);
    }
  }

  lemma EscapeSnoc(p: seq<byte>, i: nat)
    requires i < |p|
    ensures Escape(p[..i + 1]) == Escape(p[..i]) + EscapeByte(p[i])
  {
    assert p[..i + 1] == p[..i] + [p[i]];
    EscapeAppend(p[..i], [p[i]]);
    assert [p[i]][1..] == [];
  }

  method SlipEncode(payload: seq<byte>) returns (out: seq<byte>)
    ensures out == Frame(payload)
  {
    out := [END];
    for i := 0 to |payload|
      invariant out == [END] + Escape(payload[..i])
    {
      var b := payload[i];
      EscapeSnoc(payload, i);
      if b == END {
        out := out + [ESC, ESC_END];
      } else if b == ESC {
        out := out + [ESC, ESC_ESC];
      } else {
        out := out + [b];
      }
    }
    assert payload[..|payload|] == payload;
    out := out + [END];
  }

  // ---------------------------------------------------------------- decoding

  /** Skips everything up to and including the first delimiter. */
  function Seek(rx: seq<RxEvent>): (r: (Result<(), Error>, seq<RxEvent>))
    ensures |r.1| <= |rx| && (r.0.Ok? ==> |r.1| < |rx|)
    decreases |rx|
  {
    var (b, rest) := ReadByte(rx);
    match b
    case Err(e) => (Err(e), rest)
    case Ok(c) => if c == END then (Ok(()), rest) else Seek(rest)
  }

  /** Collects payload bytes until a delimiter; leading delimiters are skipped. */
  function Body(rx: seq<RxEvent>, out: seq<byte>): (r: (Result<seq<byte>, Error>, seq<RxEvent>))
    ensures |r.1| <= |rx| && (r.0.Ok? ==> |r.1| < |rx|)
    decreases |rx|
  {
    var (b, rest) := ReadByte(rx);
    match b
    case Err(e) => (Err(e), rest)
    case Ok(c) =>
      if c == END then if out == [] then Body(rest, out) else (Ok(out), rest)
      else if c == ESC then
        var (n, rest2) := ReadByte(rest);
        match n
        case Err(e) => (Err(e), rest2)
        case Ok(d) =>
          if d == ESC_END then Body(rest2, out + [END])
          else if d == ESC_ESC then Body(rest2, out + [ESC])
          else (Err(BadEscape(d)), rest2)
      else Body(rest, out + [c])
  }

  function ReadFrame(rx: seq<RxEvent>): (r: (Result<seq<byte>, Error>, seq<RxEvent>))
    ensures |r.1| <= |rx| && (r.0.Ok? ==> |r.1| < |rx|)
  {
    var (s, rest) := Seek(rx);
    match s
    case Err(e) => (Err(e), rest)
    case Ok(_) => Body(rest, [])
  }

  lemma NothingToRead()
    ensures ReadFrame([]) == (Err(Timeout), [])
  {
  }

  // ---------------------------------------------------------------- the exact language of the decoder

  function Ends(k: nat): seq<byte> { Fill(k, END) }

  /** Junk without a delimiter, one or more delimiters, an escaped payload, a delimiter. */
  function Wire(junk: seq<byte>, k: nat, p: seq<byte>): seq<byte> { junk + Ends(k) + Escape(p) + [END] }

  predicate IsWire(junk: seq<byte>, k: nat, p: seq<byte>) { END !in junk && k >= 1 && p != [] }

  lemma {:induction false} SeekSkips(junk: seq<byte>, rest: seq<RxEvent>)
    requires END !in junk
    ensures Seek(Data(junk) + [Arrived(END)] + rest) == (Ok(()), rest)
    decreases |junk|
  {
    var rx := Data(junk) + [Arrived(END)] + rest;
    if junk == [] {
      assert rx[1..] == rest;
    } else {
      assert rx[1..] == Data(junk[1..]) + [Arrived(END)] + rest;
      SeekSkips(junk[1..], rest);
    }
  }

  lemma {:induction false} BodySkipsEnds(k: nat, rest: seq<RxEvent>)
    ensures Body(Data(Ends(k)) + rest, []) == Body(rest, [])
    decreases k
  {
    var rx := Data(Ends(k)) + rest;
    if k == 0 {
      assert rx == rest;
    } else {
      assert rx[1..] == Data(Ends(k - 1)) + rest;
      BodySkipsEnds(k - 1, rest);
    }
  }

  lemma {:induction false} BodyReads(p: seq<byte>, out: seq<byte>, rest: seq<RxEvent>)
    requires out + p != []
    ensures Body(Data(Escape(p) + [END]) + rest, out) == (Ok(out + p), rest)
    decreases |p|
  {
    var rx := Data(Escape(p) + [END]) + rest;
    if p == [] {
      assert rx[0] == Arrived(END) && rx[1..] == rest && out + p == out;
    } else {
      var tail := Data(Escape(p[1..]) + [END]) + rest;
      assert Escape(p) + [END] == EscapeByte(p[0]) + (Escape(p[1..]) + [END]);
      DataAppend(EscapeByte(p[0]), Escape(p[1..]) + [END]);
      assert rx == Data(EscapeByte(p[0])) + tail;
      BodyTakesByte(p[0], out, tail);
      assert out + p == out + [p[0]] + p[1..];
      BodyReads(p[1..], out + [p[0]], rest);
    }
  }

  lemma BodyTakesByte(b: byte, out: seq<byte>, tail: seq<RxEvent>)
    ensures Body(Data(EscapeByte(b)) + tail, out) == Body(tail, out + [b])
  {
    var head := EscapeByte(b);
    var rx := Data(head) + tail;
    assert rx[|head|..] == tail;
    if |head| == 2 {
      assert rx[1..][0] == Arrived(head[1]) && rx[1..][1..] == tail;
    }
  }

  /** Completeness: every string of the language is read as its payload, and nothing behind it. */
  lemma ReadsWire(junk: seq<byte>, k: nat, p: seq<byte>, rest: seq<RxEvent>)
    requires IsWire(junk, k, p)
    ensures ReadFrame(Data(Wire(junk, k, p)) + rest) == (Ok(p), rest)
  {
    var body := Data(Escape(p) + [END]) + rest;
    var more := Data(Ends(k - 1)) + body;
    assert Data(Wire(junk, k, p)) + rest == Data(junk) + [Arrived(END)] + more;
    SeekSkips(junk, more);
    BodySkipsEnds(k - 1, body);
    BodyReads(p, [], rest);
    assert [] + p == p;
  }

  lemma {:induction false} SeekSound(rx: seq<RxEvent>) returns (junk: seq<byte>)
    requires Seek(rx).0.Ok?
    ensures END !in junk && rx == Data(junk + [END]) + Seek(rx).1
    decreases |rx|
  {
    if rx[0] == Arrived(END) {
      junk := [];
    } else {
      var tail := SeekSound(rx[1..]);
      junk := [rx[0].b] + tail;
      assert junk + [END] == [rx[0].b] + (tail + [END]);
    }
  }

  /** One payload byte, plain or escaped, at the head of what `Body` reads. */
  lemma ByteSound(rx: seq<RxEvent>, out: seq<byte>) returns (b: byte, after: seq<RxEvent>)
    requires Body(rx, out).0.Ok? && rx != [] && rx[0] != Arrived(END)
    ensures |after| < |rx| && rx == Data(EscapeByte(b)) + after
    ensures Body(rx, out) == Body(after, out + [b])
  {
    var c, rest := rx[0].b, rx[1..];
    if c == ESC {
      b, after := if rest[0].b == ESC_END then END else ESC, rest[1..];
      assert rx == [rx[0], rest[0]] + after;
    } else {
      b, after := c, rest;
    }
  }

  lemma EscapeCons(b: byte, q: seq<byte>)
    ensures Escape([b] + q) == EscapeByte(b) + Escape(q)
  {
    assert ([b] + q)[1..] == q;
  }

  /** What `Body` consumed when it came to an end with a frame. */
  lemma {:induction false} BodySound(rx: seq<RxEvent>, out: seq<byte>) returns (k: nat, p: seq<byte>)
    requires Body(rx, out).0.Ok?
    ensures Body(rx, out).0.value == out + p && out + p != []
    ensures rx == Data(Ends(k) + Escape(p) + [END]) + Body(rx, out).1
    ensures out != [] ==> k == 0
    decreases |rx|
  {
    hide EscapeByte, Escape;
    var end := Body(rx, out).1;
    if rx[0] != Arrived(END) {
      var b, after := ByteSound(rx, out);
      var j, q := BodySound(after, out + [b]);
      k, p := 0, [b] + q;
      assert out + p == out + [b] + q;
      EscapeCons(b, q);
      assert Ends(0) + Escape(p) + [END] == EscapeByte(b) + (Ends(0) + Escape(q) + [END]);
      DataAppend(EscapeByte(b), Ends(0) + Escape(q) + [END]);
    } else if out == [] {
      var j, q := BodySound(rx[1..], out);
      k, p := j + 1, q;
      assert Ends(k) + Escape(p) + [END] == [END] + (Ends(j) + Escape(q) + [END]);
    } else {
      k, p := 0, [];
      EscapeNothing();
    }
  }

  lemma EscapeNothing()
    ensures Escape([]) == []
  {
  }

  /** Soundness: what was consumed for a frame is a string of the language. */
  lemma FrameSound(rx: seq<RxEvent>) returns (junk: seq<byte>, k: nat)
    requires ReadFrame(rx).0.Ok?
    ensures IsWire(junk, k, ReadFrame(rx).0.value)
    ensures rx == Data(Wire(junk, k, ReadFrame(rx).0.value)) + ReadFrame(rx).1
  {
    hide Seek, Body, Escape;
    junk := SeekSound(rx);
    var j, p := BodySound(Seek(rx).1, []);
    k := j + 1;
    assert [] + p == p;
    WireSplit(junk, j, p);
    DataAppend(junk + [END], Ends(j) + Escape(p) + [END]);
  }

  lemma WireSplit(junk: seq<byte>, j: nat, p: seq<byte>)
    ensures Wire(junk, j + 1, p) == (junk + [END]) + (Ends(j) + Escape(p) + [END])
  {
    hide Escape;
    assert Ends(j + 1) == [END] + Ends(j);
  }

  /** Soundness and completeness together: the decoder returns `p` and stops at `rest` exactly
      when what it consumed is a string of the language for `p`. */
  lemma FrameExactly(rx: seq<RxEvent>, p: seq<byte>, rest: seq<RxEvent>)
    ensures ReadFrame(rx) == (Ok(p), rest)
       <==> exists junk, k :: IsWire(junk, k, p) && rx == Data(Wire(junk, k, p)) + rest
  {
    hide ReadFrame, Wire, IsWire;
    if ReadFrame(rx) == (Ok(p), rest) {
      var junk, k := FrameSound(rx);
      assert IsWire(junk, k, p);
    }
    forall junk, k | IsWire(junk, k, p) && rx == Data(Wire(junk, k, p)) + rest
      ensures ReadFrame(rx) == (Ok(p), rest)
    {
      ReadsWire(junk, k, p, rest);
    }
  }

  // ---------------------------------------------------------------- exactly how it fails

  /** No byte comes where one is wanted. */
  predicate NoByte(tail: seq<RxEvent>, e: Error, rest: seq<RxEvent>) {
    || (tail == [] && e == Timeout && rest == [])
    || (tail == [Silence] + rest && e == Timeout)
    || (tail == [Fault] + rest && e == ReadFault)
  }

  /** Nothing more where a byte is wanted, perhaps in the middle of an escape; or an escape that there
      is not. */
  predicate Stops(esc: seq<byte>, tail: seq<RxEvent>, e: Error, rest: seq<RxEvent>) {
    if |esc| < 2 then (esc == [] || esc == [ESC]) && NoByte(tail, e, rest)
    else esc == [ESC, esc[1]] && esc[1] != ESC_END && esc[1] != ESC_ESC && e == BadEscape(esc[1]) && rest == tail
  }

  /** Junk, or junk, delimiters and escaped bytes, and there it stops. */
  predicate Breaks(rx: seq<RxEvent>, junk: seq<byte>, k: nat, p: seq<byte>, esc: seq<byte>, tail: seq<RxEvent>,
                   e: Error, rest: seq<RxEvent>) {
    && END !in junk
    && rx == Data(junk) + (Data(Ends(k)) + (Data(Escape(p)) + (Data(esc) + tail)))
    && (k == 0 ==> p == [] && esc == [])
    && Stops(esc, tail, e, rest)
  }

  lemma WantsByte(tail: seq<RxEvent>, e: Error, rest: seq<RxEvent>)
    ensures NoByte(tail, e, rest) <==> ReadByte(tail) == (Err(e), rest)
  {
    if tail != [] {
      assert tail == [tail[0]] + tail[1..];
    }
  }

  lemma DataCons(b: byte, s: seq<byte>, tail: seq<RxEvent>)
    ensures Data([b] + s) + tail == [Arrived(b)] + (Data(s) + tail)
  {
  }

  lemma NoData(tail: seq<RxEvent>)
    ensures Data([]) + tail == tail
  {
  }

  lemma {:induction false} SeekPasses(junk: seq<byte>, tail: seq<RxEvent>)
    requires END !in junk
    ensures Seek(Data(junk) + tail) == Seek(tail)
    decreases |junk|
  {
    if junk == [] {
      NoData(tail);
    } else {
      assert junk == [junk[0]] + junk[1..];
      DataCons(junk[0], junk[1..], tail);
      SeekPasses(junk[1..], tail);
    }
  }

  lemma {:induction false} BodyPasses(p: seq<byte>, out: seq<byte>, tail: seq<RxEvent>)
    ensures Body(Data(Escape(p)) + tail, out) == Body(tail, out + p)
    decreases |p|
  {
    hide EscapeByte, Body;
    if p == [] {
      NoData(tail);
      assert out + p == out;
    } else {
      DataAppend(EscapeByte(p[0]), Escape(p[1..]));
      var more := Data(Escape(p[1..])) + tail;
      assert Data(Escape(p)) + tail == Data(EscapeByte(p[0])) + more;
      BodyTakesByte(p[0], out, more);
      assert out + p == out + [p[0]] + p[1..];
      BodyPasses(p[1..], out + [p[0]], tail);
    }
  }

  lemma EscapeBreaks(out: seq<byte>, esc: seq<byte>, tail: seq<RxEvent>, e: Error, rest: seq<RxEvent>)
    requires Stops(esc, tail, e, rest)
    ensures Body(Data(esc) + tail, out) == (Err(e), rest)
  {
    var rx := Data(esc) + tail;
    if esc == [] {
      NoData(tail);
      WantsByte(tail, e, rest);
    } else {
      assert rx[0] == Arrived(ESC);
      if |esc| == 1 {
        assert rx[1..] == tail;
        WantsByte(tail, e, rest);
      } else {
        assert rx[1..][0] == Arrived(esc[1]) && rx[1..][1..] == tail;
      }
    }
  }

  /** Completeness: each such input makes it fail in this way. */
  lemma BreaksIt(rx: seq<RxEvent>, junk: seq<byte>, k: nat, p: seq<byte>, esc: seq<byte>, tail: seq<RxEvent>,
                 e: Error, rest: seq<RxEvent>)
    requires Breaks(rx, junk, k, p, esc, tail, e, rest)
    ensures ReadFrame(rx) == (Err(e), rest)
  {
    hide Seek, Body, Escape, NoByte;
    var inEscape := Data(esc) + tail;
    var inBody := Data(Escape(p)) + inEscape;
    SeekPasses(junk, Data(Ends(k)) + inBody);
    if k == 0 {
      EscapeNothing();
      NoData(inBody);
      NoData(inEscape);
      NoData(tail);
      SeekFailsAt(tail, e, rest);
    } else {
      assert Data(Ends(k)) + inBody == Data([]) + [Arrived(END)] + (Data(Ends(k - 1)) + inBody);
      SeekSkips([], Data(Ends(k - 1)) + inBody);
      BodySkipsEnds(k - 1, inBody);
      BodyPasses(p, [], inEscape);
      EscapeBreaks([] + p, esc, tail, e, rest);
    }
  }

  lemma SeekFailsAt(tail: seq<RxEvent>, e: Error, rest: seq<RxEvent>)
    requires NoByte(tail, e, rest)
    ensures Seek(tail) == (Err(e), rest)
  {
    WantsByte(tail, e, rest);
  }

  lemma {:induction false} SeekBroke(rx: seq<RxEvent>) returns (junk: seq<byte>, tail: seq<RxEvent>)
    requires Seek(rx).0.Err?
    ensures END !in junk && rx == Data(junk) + tail && NoByte(tail, Seek(rx).0.error, Seek(rx).1)
    decreases |rx|
  {
    WantsByte(rx, Seek(rx).0.error, Seek(rx).1);
    junk, tail := [], rx;
    if rx != [] && rx[0].Arrived? {
      junk, tail := SeekBroke(rx[1..]);
      DataCons(rx[0].b, junk, tail);
      junk := [rx[0].b] + junk;
    }
  }

  /** What `Body` consumed when it came to an end without a frame. */
  lemma {:induction false} BodyBroke(rx: seq<RxEvent>, out: seq<byte>)
    returns (k: nat, p: seq<byte>, esc: seq<byte>, tail: seq<RxEvent>)
    requires Body(rx, out).0.Err?
    ensures Stops(esc, tail, Body(rx, out).0.error, Body(rx, out).1)
    ensures rx == Data(Ends(k)) + (Data(Escape(p)) + (Data(esc) + tail))
    ensures out != [] ==> k == 0
    decreases |rx|
  {
    hide NoByte, Escape, EscapeByte, Stops, StopsHere, Body, Data, Ends;
    if StopsHere(rx) {
      esc, tail := StopsNow(rx, out);
      k, p := 0, [];
      NothingBefore(Data(esc) + tail);
    } else {
      GoesOn(rx, out);
      if rx[0] == Arrived(END) {
        k, p, esc, tail := BodyBroke(rx[1..], out);
        OneMoreEnd(rx, k, Data(Escape(p)) + (Data(esc) + tail));
        k := k + 1;
      } else {
        var b, after := BrokeByte(rx, out);
        k, p, esc, tail := BodyBroke(after, out + [b]);
        OneMoreByte(rx, b, after, p, Data(esc) + tail);
        p := [b] + p;
      }
    }
  }

  lemma NothingBefore(more: seq<RxEvent>)
    ensures Data(Ends(0)) + (Data(Escape([])) + more) == more
  {
  }

  lemma OneMoreEnd(rx: seq<RxEvent>, k: nat, more: seq<RxEvent>)
    requires rx != [] && rx[0] == Arrived(END) && rx[1..] == Data(Ends(k)) + more
    ensures rx == Data(Ends(k + 1)) + more
  {
  }

  lemma OneMoreByte(rx: seq<RxEvent>, b: byte, after: seq<RxEvent>, p: seq<byte>, more: seq<RxEvent>)
    requires rx == Data(EscapeByte(b)) + after && after == Data(Ends(0)) + (Data(Escape(p)) + more)
    ensures rx == Data(Ends(0)) + (Data(Escape([b] + p)) + more)
  {
    hide Escape, EscapeByte;
    EscapeCons(b, p);
    DataAppend(EscapeByte(b), Escape(p));
  }

  lemma GoesOn(rx: seq<RxEvent>, out: seq<byte>)
    requires !StopsHere(rx) && Body(rx, out).0.Err?
    ensures rx != [] && rx[0].Arrived?
    ensures rx[0].b == END ==> out == [] && Body(rx, out) == Body(rx[1..], out)
    ensures rx[0].b == ESC ==> |rx| > 1 && rx[1] in {Arrived(ESC_END), Arrived(ESC_ESC)}
  {
  }

  /** `Body` cannot go on from here. */
  predicate StopsHere(rx: seq<RxEvent>) {
    || rx == [] || !rx[0].Arrived?
    || (rx[0].b == ESC && (|rx| == 1 || rx[1] !in {Arrived(ESC_END), Arrived(ESC_ESC)}))
  }

  lemma StopsNow(rx: seq<RxEvent>, out: seq<byte>) returns (esc: seq<byte>, tail: seq<RxEvent>)
    requires StopsHere(rx)
    ensures Body(rx, out).0.Err? && rx == Data(esc) + tail && Stops(esc, tail, Body(rx, out).0.error, Body(rx, out).1)
  {
    if rx == [] || !rx[0].Arrived? {
      esc, tail := [], rx;
      NoData(rx);
      WantsByte(rx, Body(rx, out).0.error, Body(rx, out).1);
    } else if |rx| == 1 || !rx[1].Arrived? {
      esc, tail := [ESC], rx[1..];
      assert rx == [rx[0]] + tail;
      WantsByte(tail, Body(rx, out).0.error, Body(rx, out).1);
    } else {
      esc, tail := [ESC, rx[1].b], rx[2..];
      assert rx[1..][1..] == tail && rx == [rx[0], rx[1]] + tail;
    }
  }

  /** One payload byte, plain or escaped, in front of where `Body` fails. */
  lemma BrokeByte(rx: seq<RxEvent>, out: seq<byte>) returns (b: byte, after: seq<RxEvent>)
    requires rx != [] && rx[0].Arrived? && rx[0].b != END
    requires rx[0].b == ESC ==> |rx| > 1 && rx[1] in {Arrived(ESC_END), Arrived(ESC_ESC)}
    ensures |after| < |rx| && rx == Data(EscapeByte(b)) + after
    ensures Body(rx, out) == Body(after, out + [b])
  {
    var c, rest := rx[0].b, rx[1..];
    if c == ESC {
      b, after := if rest[0].b == ESC_END then END else ESC, rest[1..];
      assert rx == [rx[0], rest[0]] + after;
    } else {
      b, after := c, rest;
    }
  }

  /** Soundness: whatever failed, failed on such an input. */
  lemma FrameBroke(rx: seq<RxEvent>)
    returns (junk: seq<byte>, k: nat, p: seq<byte>, esc: seq<byte>, tail: seq<RxEvent>)
    requires ReadFrame(rx).0.Err?
    ensures Breaks(rx, junk, k, p, esc, tail, ReadFrame(rx).0.error, ReadFrame(rx).1)
  {
    hide Seek, Body, Escape, NoByte;
    if Seek(rx).0.Err? {
      junk, tail := SeekBroke(rx);
      k, p, esc := 0, [], [];
      EscapeNothing();
      NoData(tail);
    } else {
      junk := SeekSound(rx);
      var j;
      j, p, esc, tail := BodyBroke(Seek(rx).1, []);
      k := j + 1;
      var inBody := Data(Escape(p)) + (Data(esc) + tail);
      assert Data(junk + [END]) + (Data(Ends(j)) + inBody) == Data(junk) + (Data(Ends(k)) + inBody);
    }
  }

  /** Together: the decoder fails with `e` and stops at `rest` exactly on the inputs that break off
      or have a false escape there. */
  lemma FrameFailsExactly(rx: seq<RxEvent>, e: Error, rest: seq<RxEvent>)
    ensures ReadFrame(rx) == (Err(e), rest)
       <==> exists junk, k, p, esc, tail :: Breaks(rx, junk, k, p, esc, tail, e, rest)
  {
    hide ReadFrame, Breaks;
    if ReadFrame(rx) == (Err(e), rest) {
      var junk, k, p, esc, tail := FrameBroke(rx);
      assert Breaks(rx, junk, k, p, esc, tail, e, rest);
    }
    forall junk, k, p, esc, tail | Breaks(rx, junk, k, p, esc, tail, e, rest)
      ensures ReadFrame(rx) == (Err(e), rest)
    {
      BreaksIt(rx, junk, k, p, esc, tail, e, rest);
    }
  }

  /** Reading a frame fails only on the channel's account or on a byte that no escape allows. */
  lemma FrameErrors(rx: seq<RxEvent>)
    ensures var r := ReadFrame(rx).0; r.Err? ==> r.error in {Timeout, ReadFault} || r.error.BadEscape?
  {
    hide ReadFrame;
    if ReadFrame(rx).0.Err? {
      var _, _, _, _, _ := FrameBroke(rx);
    }
  }

  /** It takes two delimiters to make a frame. */
  lemma TwoDelimiters(s: seq<byte>) returns (i: nat, j: nat)
    requires ReadFrame(Data(s)).0.Ok?
    ensures i < j < |s| && s[i] == END && s[j] == END
  {
    hide ReadFrame, Escape;
    var rx, p := Data(s), ReadFrame(Data(s)).0.value;
    var junk, k := FrameSound(rx);
    i, j := |junk|, |Wire(junk, k, p)| - 1;
    assert Wire(junk, k, p)[i] == END && Wire(junk, k, p)[j] == END;
    assert rx[i] == Arrived(END) && rx[j] == Arrived(END);
  }

  /** The beginning of a frame is not a frame. */
  lemma PartIsNoFrame(p: seq<byte>, n: nat)
    requires n < |Frame(p)|
    ensures ReadFrame(Data(Frame(p)[..n])).0.Err?
  {
    hide ReadFrame;
    var part := Frame(p)[..n];
    OneDelimiter(p, n);
    if ReadFrame(Data(part)).0.Ok? {
      var i, j := TwoDelimiters(part);
      assert false;
    }
  }

  lemma OneDelimiter(p: seq<byte>, n: nat)
    requires n < |Frame(p)|
    ensures forall i :: 0 < i < n ==> Frame(p)[..n][i] != END
  {
    var e := Escape(p);
    forall i | 0 < i < n
      ensures Frame(p)[..n][i] != END
    {
      assert Frame(p)[..n][i] == e[i - 1] && e[i - 1] in e;
    }
  }

  /** The bytes of a frame that needs both escapes. */
  lemma FrameBytes()
    ensures Frame([0x01, 0xC0, 0x02, 0xDB, 0x03]) == [0xC0, 0x01, 0xDB, 0xDC, 0x02, 0xDB, 0xDD, 0x03, 0xC0]
  {
    hide Escape;
    EscapeTwo(0xDB, 0x03);
    EscapeCons(0x02, [0xDB, 0x03]);
    EscapeTwo(0x01, 0xC0);
    EscapeAppend([0x01, 0xC0], [0x02, 0xDB, 0x03]);
    assert [0x01, 0xC0] + [0x02, 0xDB, 0x03] == [0x01, 0xC0, 0x02, 0xDB, 0x03];
    assert [0x02] + [0xDB, 0x03] == [0x02, 0xDB, 0x03];
  }

  lemma EscapeTwo(a: byte, b: byte)
    ensures Escape([a, b]) == EscapeByte(a) + EscapeByte(b)
  {
    assert [a, b][1..] == [b] && [b][1..] == [];
    assert Escape([b]) == EscapeByte(b) + Escape([]);
  }

  // ---------------------------------------------------------------- what the encoder makes of this

  /** The encoder is undone by the decoder, whatever END-free noise stands in front. */
  lemma FrameRoundTrip(noise: seq<byte>, p: seq<byte>, rest: seq<RxEvent>)
    requires END !in noise && p != []
    ensures ReadFrame(Data(noise + Frame(p)) + rest) == (Ok(p), rest)
  {
    assert noise + Frame(p) == Wire(noise, 1, p);
    ReadsWire(noise, 1, p, rest);
  }

  /** No two payloads share a frame. */
  lemma FrameInjective(p: seq<byte>, q: seq<byte>)
    requires Frame(p) == Frame(q)
    ensures p == q
  {
    assert |Escape(p)| == |Escape(q)|;
    if p != [] && q != [] {
      FrameRoundTrip([], p, []);
      FrameRoundTrip([], q, []);
    }
  }

  /** Joining in the middle of a frame costs that frame and no more: the next one is read whole. */
  lemma Resynchronises(p1: seq<byte>, i: nat, p2: seq<byte>, rest: seq<RxEvent>)
    requires 1 <= i <= |Frame(p1)| && p2 != []
    ensures ReadFrame(Data(Frame(p1)[i..] + Frame(p2)) + rest) == (Ok(p2), rest)
  {
    hide ReadFrame, Escape;
    var e := Escape(p1);
    var junk, k := if i == |Frame(p1)| then [] else e[i - 1..], if i == |Frame(p1)| then 1 else 2;
    FrameTail(p1, i);
    assert Ends(1) == [END] && Ends(2) == [END, END];
    assert Frame(p1)[i..] + Frame(p2) == Wire(junk, k, p2);
    ReadsWire(junk, k, p2, rest);
  }

  lemma FrameTail(p: seq<byte>, i: nat)
    requires 1 <= i <= |Frame(p)|
    ensures i < |Frame(p)| ==> END !in Escape(p)[i - 1..] && Frame(p)[i..] == Escape(p)[i - 1..] + [END]
    ensures i == |Frame(p)| ==> Frame(p)[i..] == []
  {
  }

  // ---------------------------------------------------------------- streams of frames

  /** Up to `k` frames in a row; it stops at the first one that cannot be read. */
  function ReadFrames(rx: seq<RxEvent>, k: nat): (r: (Result<seq<seq<byte>>, Error>, seq<RxEvent>))
    ensures r.0.Ok? ==> |r.0.value| == k
    decreases k
  {
    if k == 0 then (Ok([]), rx) else
      var (f, rest) := ReadFrame(rx);
      match f
      case Err(e) => (Err(e), rest)
      case Ok(p) =>
        var (ps, end) := ReadFrames(rest, k - 1);
        match ps
        case Err(e) => (Err(e), end)
        case Ok(more) => (Ok([p] + more), end)
  }

  /** Noise and frame, noise and frame, and so on. */
  function Stream(noise: seq<seq<byte>>, ps: seq<seq<byte>>): seq<byte>
    requires |noise| == |ps|
  {
    if ps == [] then [] else noise[0] + Frame(ps[0]) + Stream(noise[1..], ps[1..])
  }

  predicate Readable(noise: seq<seq<byte>>, ps: seq<seq<byte>>) {
    && |noise| == |ps|
    && forall i :: 0 <= i < |ps| ==> END !in noise[i] && ps[i] != []
  }

  lemma {:induction false} StreamRoundTrip(noise: seq<seq<byte>>, ps: seq<seq<byte>>, rest: seq<RxEvent>)
    requires Readable(noise, ps)
    ensures ReadFrames(Data(Stream(noise, ps)) + rest, |ps|) == (Ok(ps), rest)
    decreases |ps|
  {
    if ps == [] {
      assert Data([]) + rest == rest;
    } else {
      var first, more := noise[0] + Frame(ps[0]), Stream(noise[1..], ps[1..]);
      DataAppend(first, more);
      assert Data(first + more) + rest == Data(first) + (Data(more) + rest);
      FrameRoundTrip(noise[0], ps[0], Data(more) + rest);
      StreamRoundTrip(noise[1..], ps[1..], rest);
      assert [ps[0]] + ps[1..] == ps;
    }
  }
}
