/**
 TCP options as the build of src/Makefile.am:8 has them (timestamps on, SACK off): the printer of
 src/usnet/tcp_out.c:44-155 and the two parsers src/usnet/tcb.c:196-239 and src/usnet/tcp.c:55-86.
 */
module Options {
  import opened Words

  const EOL: byte := 0
  const NOP: byte := 1
  const MAXSEG: byte := 2
  const WINDOW: byte := 3
  const SACK_PERMITTED: byte := 4
  const TIMESTAMP: byte := 8

  /** A 32-bit word in network order. */
  function BigBytes(x: u32): (b: seq<byte>)
    ensures |b| == 4 && LoadBig(b) == x
  {
    var w := WordBytes(x);
    var b := [w[3], w[2], w[1], w[0]];
    assert [b[3], b[2], b[1], b[0]] == w;
    b
  }

  /** `ntohl` of a loaded word. */
  function LoadBig(b: seq<byte>): u32
    requires |b| == 4
  {
    LoadWord([b[3], b[2], b[1], b[0]])
  }

  // ----- options as values

  datatype Opt =
    | Nop
    | MaxSeg(mss: u16)
    | Scale(shift: byte)
    | SackOk
    | Stamp(val: u32, echo: u32)
    | Other(kind: byte, data: seq<byte>)
  {
    /** Only kinds the others do not stand for, and a length that fits its byte. */
    predicate Fits() {
      Other? ==> kind !in {EOL, NOP, MAXSEG, WINDOW, SACK_PERMITTED, TIMESTAMP} && |data| <= 253
    }

    function Bytes(): (b: seq<byte>)
      requires Fits()
      ensures |b| > 0 && b[0] != EOL && (b[0] == NOP <==> Nop?)
      ensures !Nop? ==> |b| >= 2 && b[1] == |b|
      ensures |b| <= 255
    {
      match this
      case Nop => [NOP]
      case MaxSeg(mss) => [MAXSEG, 4, mss / 256, mss % 256]
      case Scale(shift) => [WINDOW, 3, shift]
      case SackOk => [SACK_PERMITTED, 2]
      case Stamp(val, echo) => [TIMESTAMP, 10] + BigBytes(val) + BigBytes(echo)
      case Other(kind, data) => [kind, |data| + 2] + data
    }
  }

  ghost predicate AllFit(opts: seq<Opt>) { forall o <- opts :: o.Fits() }

  function Encode(opts: seq<Opt>): seq<byte>
    requires forall o <- opts :: o.Fits()
  {
    if opts == [] then [] else opts[0].Bytes() + Encode(opts[1..])
  }

  /** An option area: a list, then nothing or an end-of-list byte and anything. */
  ghost predicate Area(b: seq<byte>, opts: seq<Opt>, rest: seq<byte>)
  {
    AllFit(opts) && b == Encode(opts) + rest && (rest != [] ==> rest[0] == EOL)
  }

  /** A cursor at `i` with `todo` to come: it faces the first of them, or the end of the list. */
  lemma Facing(b: seq<byte>, i: nat, todo: seq<Opt>, rest: seq<byte>)
    requires i < |b| && Area(b[i..], todo, rest)
    ensures todo == [] ==> b[i] == EOL
    ensures todo != [] ==>
              && todo[0].Fits()
              && var o := todo[0].Bytes();
              i + |o| <= |b| && b[i..i + |o|] == o && b[i] == o[0] && (|o| > 1 ==> b[i + 1] == o[1])
    ensures todo != [] ==> Area(b[i + |todo[0].Bytes()|..], todo[1..], rest)
  {
    if todo == [] {
      assert b[i..] == rest;
      assert b[i] == b[i..][0];
    } else {
      hide Opt.Bytes;
      var o, tail := todo[0].Bytes(), Encode(todo[1..]) + rest;
      assert Encode(todo) + rest == o + tail;
      FrontOf(b, i, o, tail);
    }
  }

  lemma FrontOf(b: seq<byte>, i: nat, o: seq<byte>, tail: seq<byte>)
    requires i < |b| && b[i..] == o + tail && |o| > 0
    ensures i + |o| <= |b| && b[i..i + |o|] == o && b[i + |o|..] == tail
    ensures b[i] == o[0] && (|o| > 1 ==> b[i + 1] == o[1])
  {
    assert b[i..i + |o|] == b[i..][..|o|];
    assert b[i + |o|..] == b[i..][|o|..];
    assert b[i] == b[i..][0] && (|o| > 1 ==> b[i + 1] == b[i..][1]);
  }

  // ----- what the parsers are to find

  ghost function FirstStamp(opts: seq<Opt>): Option<Opt>
  {
    if opts == [] then None else if opts[0].Stamp? then Some(opts[0]) else FirstStamp(opts[1..])
  }

  /** What the options of a SYN set in the connection. */
  datatype Negotiated = Negotiated(mss: u16, effMss: u16, wscale: byte, sackPermit: bool, sawStamp: bool, tsRecent: u32) {
    function With(o: Opt): Negotiated {
      match o
      case MaxSeg(m) => this.(mss := m, effMss := Wrap16(m - 12))
      case Scale(shift) => this.(wscale := shift)
      case SackOk => this.(sackPermit := true)
      case Stamp(val, _) => this.(sawStamp := true, tsRecent := val)
      case _ => this
    }
  }

  ghost function Meaning(opts: seq<Opt>, init: Negotiated): Negotiated
  {
    if opts == [] then init else Meaning(opts[1..], init.With(opts[0]))
  }

  // ----- the parsers, on any bytes

  /** The two loops: usnet_parse_tcptimestamp and usnet_parse_tcpopts. */
  datatype Parser = Stamps | SynOptions

  /** The bytes from the options on, `len` of them options; a parser may read a little past these. */
  predicate Readable(b: seq<byte>, len: nat) { len + 10 <= |b| }

  /** A kind the parser passes over by the length byte after it. */
  predicate Skips(p: Parser, kind: byte)
  {
    && kind != EOL && kind != NOP && kind != TIMESTAMP
    && (p.SynOptions? ==> kind != MAXSEG && kind != WINDOW && kind != SACK_PERMITTED)
  }

  /** One round of the loop from cursor `i`: the next cursor, or -1 when the loop is left. */
  function Advance(p: Parser, b: seq<byte>, len: nat, i: int): int
    requires Readable(b, len)
  {
    if i < 0 || i >= len || b[i] == EOL then -1
    else if b[i] == NOP then i + 1
    else if i + b[i + 1] as int > len then -1
    else if Skips(p, b[i]) then i + b[i + 1] as int
    else if p.Stamps? then -1
    else if b[i] == MAXSEG then i + 4
    else if b[i] == WINDOW then i + 3
    else if b[i] == SACK_PERMITTED then i + 2
    else i + 10
  }

  /** The cursor after `n` rounds. */
  ghost function Cursor(p: Parser, b: seq<byte>, len: nat, i: int, n: nat): int
    requires Readable(b, len)
    decreases n
  {
    if n == 0 then i else if i < 0 then -1 else Cursor(p, b, len, Advance(p, b, len, i), n - 1)
  }

  ghost predicate Terminates(p: Parser, b: seq<byte>, len: nat, i: int)
    requires Readable(b, len)
  {
    exists n: nat :: Cursor(p, b, len, i, n) < 0
  }

  /** The cursor faces an option to be skipped whose length is zero. */
  predicate Stalls(p: Parser, b: seq<byte>, len: nat, i: int)
    requires Readable(b, len)
  {
    0 <= i < len && Skips(p, b[i]) && b[i + 1] == 0
  }

  /** No cursor the parser comes to faces such an option. */
  ghost predicate NeverStalls(p: Parser, b: seq<byte>, len: nat, i: int)
    requires Readable(b, len)
  {
    forall n: nat :: !Stalls(p, b, len, Cursor(p, b, len, i, n))
  }

  lemma {:induction false} CursorSum(p: Parser, b: seq<byte>, len: nat, i: int, m: nat, k: nat)
    requires Readable(b, len)
    ensures var c := Cursor(p, b, len, i, m);
            Cursor(p, b, len, i, m + k) == if m == 0 || c >= 0 then Cursor(p, b, len, c, k) else -1
    decreases m
  {
    if m > 0 {
      if i < 0 {
        Gone(p, b, len, i, m + k);
      } else {
        CursorSum(p, b, len, Advance(p, b, len, i), m - 1, k);
        if m == 1 && Advance(p, b, len, i) < 0 {
          Gone(p, b, len, -1, k);
        }
      }
    }
  }

  lemma Gone(p: Parser, b: seq<byte>, len: nat, i: int, n: nat)
    requires Readable(b, len) && i < 0
    ensures n > 0 ==> Cursor(p, b, len, i, n) == -1
    ensures Cursor(p, b, len, -1, n) == -1
  {
  }

  lemma {:induction false} StaysPut(p: Parser, b: seq<byte>, len: nat, i: int, n: nat)
    requires Readable(b, len) && Stalls(p, b, len, i)
    ensures Cursor(p, b, len, i, n) == i
  {
    if n > 0 {
      StaysPut(p, b, len, i, n - 1);
    }
  }

  /** A parser that stalls somewhere has a cursor at every time before and after. */
  lemma NeverLeaves(p: Parser, b: seq<byte>, len: nat, i: int, m: nat, n: nat)
    requires Readable(b, len) && Stalls(p, b, len, Cursor(p, b, len, i, m))
    ensures Cursor(p, b, len, i, n) >= 0
  {
    hide Advance;
    if n > m {
      CursorSum(p, b, len, i, m, n - m);
      StaysPut(p, b, len, Cursor(p, b, len, i, m), n - m);
    } else if i < 0 {
      Gone(p, b, len, i, m);
    } else {
      CursorSum(p, b, len, i, n, m - n);
    }
  }

  lemma {:induction false} Ends(p: Parser, b: seq<byte>, len: nat, i: int)
    requires Readable(b, len) && NeverStalls(p, b, len, i)
    ensures Terminates(p, b, len, i)
    decreases len - i
  {
    if i < 0 {
      assert Cursor(p, b, len, i, 0) < 0;
    } else {
      var a := Advance(p, b, len, i);
      assert !Stalls(p, b, len, Cursor(p, b, len, i, 0));
      if a < 0 {
        assert Cursor(p, b, len, i, 1) == Cursor(p, b, len, a, 0);
      } else {
        forall n: nat ensures !Stalls(p, b, len, Cursor(p, b, len, a, n)) { assert Cursor(p, b, len, i, n + 1) == Cursor(p, b, len, a, n); }
        Ends(p, b, len, a);
        var n: nat :| Cursor(p, b, len, a, n) < 0;
        assert Cursor(p, b, len, i, n + 1) == Cursor(p, b, len, a, n);
      }
    }
  }

  /** On any bytes at all: a parser loop ends if and only if it never comes to an option it skips whose length is zero. */
  lemma TerminatesIff(p: Parser, b: seq<byte>, len: nat, i: int)
    requires Readable(b, len)
    ensures Terminates(p, b, len, i) <==> NeverStalls(p, b, len, i)
  {
    if Terminates(p, b, len, i) {
      var n: nat :| Cursor(p, b, len, i, n) < 0;
      forall m: nat
        ensures !Stalls(p, b, len, Cursor(p, b, len, i, m))
      {
        if Stalls(p, b, len, Cursor(p, b, len, i, m)) {
          NeverLeaves(p, b, len, i, m, n);
        }
      }
    }
    if NeverStalls(p, b, len, i) {
      Ends(p, b, len, i);
    }
  }

  /** For instance, neither parser ever leaves an area that begins with kind 5 and length 0. */
  lemma FiveZeroNeverEnds(p: Parser)
    ensures var b := [5, 0] + seq(10, _ => 0); Readable(b, 2) && !Terminates(p, b, 2, 0)
  {
    var b := [5, 0] + seq(10, _ => 0);
    assert Stalls(p, b, 2, Cursor(p, b, 2, 0, 0));
    TerminatesIff(p, b, 2, 0);
  }

  // ----- what they compute, on any bytes

  /** Where the timestamp parser finds its timestamp. */
  ghost function Find(b: seq<byte>, len: nat, i: nat): Option<nat>
    requires Readable(b, len)
    decreases len - i
  {
    var a := Advance(Stamps, b, len, i);
    if a > i then Find(b, len, a)
    else if i < len && b[i] == TIMESTAMP && i + b[i + 1] as int <= len then Some(i)
    else None
  }

  /** What the SYN parser takes from an option at `i`: the kinds it knows at their fixed size. */
  function Read(b: seq<byte>, i: nat, n: Negotiated): Negotiated
    requires i + 10 <= |b|
  {
    if b[i] == MAXSEG then
      var mss := b[i + 2] as int * 256 + b[i + 3] as int;
      n.(mss := mss, effMss := Wrap16(mss - 12))
    else if b[i] == WINDOW then n.(wscale := b[i + 2])
    else if b[i] == SACK_PERMITTED then n.(sackPermit := true)
    else if b[i] == TIMESTAMP then n.(sawStamp := true, tsRecent := LoadBig(b[i + 2..i + 6]))
    else n
  }

  ghost function Effect(b: seq<byte>, len: nat, i: nat, n: Negotiated): Negotiated
    requires Readable(b, len)
    decreases len - i
  {
    var a := Advance(SynOptions, b, len, i);
    if a > i then Effect(b, len, a, Read(b, i, n)) else n
  }

  /**
   usnet_parse_tcptimestamp on any bytes on which it terminates: it succeeds exactly if it comes to a
   timestamp, and returns the two words there.
   */
  method ParseTimestamp(b: seq<byte>, len: nat) returns (ok: bool, val: u32, echo: u32)
    requires Readable(b, len) && Terminates(Stamps, b, len, 0)
    ensures ok <==> Find(b, len, 0).Some?
    ensures ok ==> var at := Find(b, len, 0).value; at < len && val == LoadBig(b[at + 2..at + 6]) && echo == LoadBig(b[at + 6..at + 10])
  {
    ok, val, echo := false, 0, 0;
    var i := 0;
    while i < len
      invariant 0 <= i && Terminates(Stamps, b, len, i) && Find(b, len, 0) == Find(b, len, i)
      decreases len - i
    {
      Onwards(Stamps, b, len, i);
      if b[i] == EOL {
        return;
      }
      if b[i] == NOP {
        i := i + 1;
      } else {
        var optlen := b[i + 1];
        if i + 2 + optlen as int - 2 > len {
          return;
        }
        if b[i] == TIMESTAMP {
          return true, LoadBig(b[i + 2..i + 6]), LoadBig(b[i + 6..i + 10]);
        }
        i := i + 2 + (optlen as int - 2);
      }
    }
  }

  /** A terminating parser makes progress, and still terminates after it. */
  lemma Onwards(p: Parser, b: seq<byte>, len: nat, i: nat)
    requires Readable(b, len) && Terminates(p, b, len, i)
    ensures !Stalls(p, b, len, i)
    ensures Advance(p, b, len, i) >= 0 ==> Advance(p, b, len, i) > i && Terminates(p, b, len, Advance(p, b, len, i))
  {
    TerminatesIff(p, b, len, i);
    assert !Stalls(p, b, len, Cursor(p, b, len, i, 0));
    var n: nat :| Cursor(p, b, len, i, n) < 0;
    assert n > 0 && Cursor(p, b, len, Advance(p, b, len, i), n - 1) < 0;
  }

  /** usnet_parse_tcpopts on any bytes on which it terminates. */
  method ParseOptions(b: seq<byte>, len: nat, init: Negotiated) returns (n: Negotiated)
    requires Readable(b, len) && Terminates(SynOptions, b, len, 0)
    ensures n == Effect(b, len, 0, init)
  {
    n := init;
    var i := 0;
    while i < len
      invariant 0 <= i && Terminates(SynOptions, b, len, i) && Effect(b, len, 0, init) == Effect(b, len, i, n)
      decreases len - i
    {
      Onwards(SynOptions, b, len, i);
      if b[i] == EOL {
        return;
      }
      if b[i] == NOP {
        i := i + 1;
      } else {
        if i + 2 + b[i + 1] as int - 2 > len {
          return;
        }
        i, n := ParseOne(b, len, i, n);
      }
    }
  }

  /** src/usnet/tcb.c:217-236 for an option that is neither EOL nor NOP. */
  method ParseOne(b: seq<byte>, len: nat, i: nat, n: Negotiated) returns (i': int, n': Negotiated)
    requires Readable(b, len) && i < len && b[i] != EOL && b[i] != NOP && i + b[i + 1] as int <= len
    ensures i' == Advance(SynOptions, b, len, i) && n' == Read(b, i, n)
  {
    if b[i] == MAXSEG {
      var mss := b[i + 2] as int * 256 + b[i + 3] as int;
      return i + 4, n.(mss := mss, effMss := Wrap16(mss - 12));
    } else if b[i] == WINDOW {
      return i + 3, n.(wscale := b[i + 2]);
    } else if b[i] == SACK_PERMITTED {
      return i + 2, n.(sackPermit := true);
    } else if b[i] == TIMESTAMP {
      return i + 10, n.(sawStamp := true, tsRecent := LoadBig(b[i + 2..i + 6]));
    }
    return i + 2 + (b[i + 1] as int - 2), n;
  }

  // ----- what they compute, on well-formed lists

  /** The kind byte tells the option. */
  lemma KindOf(o: Opt)
    requires o.Fits()
    ensures o.Bytes()[0] == NOP <==> o.Nop?
    ensures o.Bytes()[0] == MAXSEG <==> o.MaxSeg?
    ensures o.Bytes()[0] == WINDOW <==> o.Scale?
    ensures o.Bytes()[0] == SACK_PERMITTED <==> o.SackOk?
    ensures o.Bytes()[0] == TIMESTAMP <==> o.Stamp?
    ensures o.Nop? ==> |o.Bytes()| == 1
  {
  }

  lemma AtEnd(b: seq<byte>, i: nat, todo: seq<Opt>, rest: seq<byte>)
    requires i == |b| && Area(b[i..], todo, rest)
    ensures todo == []
  {
    assert b[i..] == [];
  }

  /** Facing a whole option, both parsers step exactly over it and the SYN parser takes what it says. */
  lemma StepOver(b: seq<byte>, len: nat, i: nat, o: Opt, n: Negotiated)
    requires Readable(b, len) && o.Fits() && i + |o.Bytes()| <= len && b[i..i + |o.Bytes()|] == o.Bytes()
    ensures Advance(SynOptions, b, len, i) == i + |o.Bytes()| && Read(b, i, n) == n.With(o)
    ensures if o.Stamp? then b[i] == TIMESTAMP && i + b[i + 1] as int <= len && Advance(Stamps, b, len, i) == -1
            else Advance(Stamps, b, len, i) == i + |o.Bytes()|
  {
    KindOf(o);
    var s := b[i..i + |o.Bytes()|];
    assert b[i] == s[0];
    if !o.Nop? {
      assert b[i + 1] == s[1];
    }
    if o.MaxSeg? {
      assert b[i + 2] == s[2] && b[i + 3] == s[3];
    } else if o.Scale? {
      assert b[i + 2] == s[2];
    } else if o.Stamp? {
      StampAt(b, i, o);
    }
  }

  /**
   On every well-formed list, from any option of it on: both parsers terminate, the timestamp parser
   at the first timestamp before the end if there is one, and every option before the end takes
   effect, in order, in the SYN parser.
   */
  lemma {:induction false} WellFormed(b: seq<byte>, len: nat, i: nat, todo: seq<Opt>, rest: seq<byte>, n: Negotiated)
    requires Readable(b, len) && i <= len && Area(b[..len][i..], todo, rest)
    ensures Terminates(Stamps, b, len, i) && Terminates(SynOptions, b, len, i)
    ensures match Find(b, len, i)
            case None => FirstStamp(todo) == None
            case Some(at) => at + 10 <= |b| && FirstStamp(todo) == Some(Stamp(LoadBig(b[at + 2..at + 6]), LoadBig(b[at + 6..at + 10])))
    ensures Effect(b, len, i, n) == Meaning(todo, n)
    decreases |todo|
  {
    hide Area, Opt.Bytes, Advance, Read;
    var area := b[..len];
    if i == len {
      AtEnd(area, i, todo, rest);
      AtStop(Stamps, b, len, i);
      AtStop(SynOptions, b, len, i);
      Stops(Stamps, b, len, i);
      Stops(SynOptions, b, len, i);
    } else {
      Facing(area, i, todo, rest);
      if todo == [] {
        AtStop(Stamps, b, len, i);
        AtStop(SynOptions, b, len, i);
        Stops(Stamps, b, len, i);
        Stops(SynOptions, b, len, i);
      } else {
        var o := todo[0];
        var k := i + |o.Bytes()|;
        assert b[i..k] == area[i..k];
        StepOver(b, len, i, o, n);
        WellFormed(b, len, k, todo[1..], rest, n.With(o));
        Resumes(SynOptions, b, len, i);
        if o.Stamp? {
          StampAt(b, i, o);
          Stops(Stamps, b, len, i);
        } else {
          Resumes(Stamps, b, len, i);
        }
      }
    }
  }

  lemma AtStop(p: Parser, b: seq<byte>, len: nat, i: nat)
    requires Readable(b, len) && i <= len && (i < len ==> b[i] == EOL)
    ensures Advance(p, b, len, i) == -1
  {
  }

  lemma Stops(p: Parser, b: seq<byte>, len: nat, i: nat)
    requires Readable(b, len) && Advance(p, b, len, i) < 0
    ensures Terminates(p, b, len, i)
  {
    assert Cursor(p, b, len, i, 1) == Cursor(p, b, len, Advance(p, b, len, i), 0);
  }

  lemma Resumes(p: Parser, b: seq<byte>, len: nat, i: nat)
    requires Readable(b, len) && Advance(p, b, len, i) >= 0 && Terminates(p, b, len, Advance(p, b, len, i))
    ensures Terminates(p, b, len, i)
  {
    var n: nat :| Cursor(p, b, len, Advance(p, b, len, i), n) < 0;
    assert Cursor(p, b, len, i, n + 1) == Cursor(p, b, len, Advance(p, b, len, i), n);
  }

  lemma StampAt(b: seq<byte>, i: nat, o: Opt)
    requires o.Fits() && i + |o.Bytes()| <= |b| && b[i..i + |o.Bytes()|] == o.Bytes() && b[i] == TIMESTAMP
    ensures o.Stamp? && |o.Bytes()| == 10 && LoadBig(b[i + 2..i + 6]) == o.val && LoadBig(b[i + 6..i + 10]) == o.echo
  {
    assert b[i] == b[i..i + |o.Bytes()|][0];
    var s := o.Bytes();
    assert |s| == 10 && s[2..6] == BigBytes(o.val) && s[6..10] == BigBytes(o.echo);
    SliceOfSlice(b, i, 10, 2, 6);
    SliceOfSlice(b, i, 10, 6, 10);
  }

  lemma SliceOfSlice(b: seq<byte>, i: nat, n: nat, p: nat, q: nat)
    requires p <= q <= n && i + n <= |b|
    ensures b[i..i + n][p..q] == b[i + p..i + q]
  {
    var s := b[i..i + n];
    var t, u := s[p..q], b[i + p..i + q];
    forall k | 0 <= k < q - p ensures t[k] == u[k] { assert t[k] == s[p + k] == b[i + (p + k)]; }
    assert t == u;
  }

  // ----- the printer

  /** usnet_get_tcpopt_length. */
  function OptLength(syn: bool, sack: bool): nat
  {
    if syn then 4 + 10 + 2 + (3 + 1) else 10 + 2 + (if sack then 10 + 2 else 0)
  }

  /** What a segment carries: the list its options stand for. */
  function Carried(syn: bool, mss: u16, wscale: byte, now: u32, recent: u32): (opts: seq<Opt>)
    ensures forall o <- opts :: o.Fits()
  {
    if syn then [MaxSeg(mss), Nop, Nop, Stamp(now, recent), Nop, Scale(wscale)] else [Nop, Nop, Stamp(now, recent)]
  }

  /** `tcpopt[i++] = ...` for each byte. */
  method Put(buf: array<byte>, i: nat, bytes: seq<byte>) returns (i': nat)
    requires i + |bytes| <= buf.Length
    modifies buf
    ensures i' == i + |bytes| && buf[..i'] == old(buf[..i]) + bytes
  {
    for k := 0 to |bytes|
      invariant buf[..i + k] == old(buf[..i]) + bytes[..k]
    {
      buf[i + k] := bytes[k];
      assert buf[..i + k + 1] == buf[..i + k] + [bytes[k]];
      assert bytes[..k + 1] == bytes[..k] + [bytes[k]];
    }
    assert bytes[..|bytes|] == bytes;
    i' := i + |bytes|;
  }

  /**
   usnet_generate_tcpopts: the bytes are those of the option list, and the printer's assertion that
   it filled the computed length holds if and only if the segment is a SYN or does not ask for SACK.
   */
  method Print(buf: array<byte>, syn: bool, sack: bool, mss: u16, wscale: byte, now: u32, recent: u32) returns (i: nat)
    requires buf.Length >= OptLength(syn, sack)
    modifies buf
    ensures i <= buf.Length && buf[..i] == Encode(Carried(syn, mss, wscale, now, recent))
    ensures i == OptLength(syn, sack) <==> syn || !sack
  {
    hide Encode, Carried;
    EncodedAs(syn, mss, wscale, now, recent);
    i := 0;
    if syn {
      i := Put(buf, i, [MAXSEG, 4, mss / 256, mss % 256]);
      i := Put(buf, i, [NOP, NOP]);
      i := Put(buf, i, [TIMESTAMP, 10] + BigBytes(now) + BigBytes(recent));
      i := Put(buf, i, [NOP, WINDOW, 3, wscale]);
    } else {
      i := Put(buf, i, [NOP, NOP]);
      i := Put(buf, i, [TIMESTAMP, 10] + BigBytes(now) + BigBytes(recent));
    }
  }

  lemma Cons(o: Opt, rest: seq<Opt>, init: Negotiated)
    ensures o.Fits() && AllFit(rest) ==> Encode([o] + rest) == o.Bytes() + Encode(rest)
    ensures Meaning([o] + rest, init) == Meaning(rest, init.With(o))
    ensures FirstStamp([o] + rest) == if o.Stamp? then Some(o) else FirstStamp(rest)
  {
    assert ([o] + rest)[1..] == rest;
  }

  /** The bytes of what a segment carries. */
  lemma EncodedAs(syn: bool, mss: u16, wscale: byte, now: u32, recent: u32)
    ensures Encode(Carried(syn, mss, wscale, now, recent)) ==
            (if syn then [MAXSEG, 4, mss / 256, mss % 256] else []) + [NOP, NOP] +
            ([TIMESTAMP, 10] + BigBytes(now) + BigBytes(recent)) + if syn then [NOP, WINDOW, 3, wscale] else []
  {
    hide BigBytes;
    var init := Negotiated(0, 0, 0, false, false, 0);
    if syn {
      var end := [Nop] + [Scale(wscale)];
      Cons(Scale(wscale), [], init);
      assert [Scale(wscale)] + [] == [Scale(wscale)];
      Cons(Nop, [Scale(wscale)], init);
      assert Encode(end) == [NOP, WINDOW, 3, wscale];
      StampPart(now, recent, end);
      var l := [Nop] + ([Nop] + ([Stamp(now, recent)] + end));
      Cons(MaxSeg(mss), l, init);
      assert Carried(syn, mss, wscale, now, recent) == [MaxSeg(mss)] + l;
      Regroup(MaxSeg(mss).Bytes(), [NOP, NOP], [TIMESTAMP, 10] + BigBytes(now) + BigBytes(recent), Encode(end));
    } else {
      StampPart(now, recent, []);
      assert Carried(syn, mss, wscale, now, recent) == [Nop] + ([Nop] + ([Stamp(now, recent)] + []));
    }
  }

  /** The highest byte comes first. */
  lemma BigEndian(x: u32)
    ensures var b := BigBytes(x);
            b[0] == x / 0x100_0000 && b[1] == x / 0x1_0000 % 0x100 && b[2] == x / 0x100 % 0x100 && b[3] == x % 0x100
  {
  }

  /**
   The areas byte by byte, with the kinds and lengths of section 3.2 of RFC 9293 and of sections 2.2 and
   3.2 of RFC 7323: the segment size, the timestamps and the window scale, padded to whole words.
   */
  lemma WireBytes(mss: u16, wscale: byte, now: u32, recent: u32)
    ensures Encode(Carried(true, mss, wscale, now, recent)) ==
            [2, 4, mss / 256, mss % 256] + [1, 1] + ([8, 10] + BigBytes(now) + BigBytes(recent)) + [1, 3, 3, wscale]
    ensures Encode(Carried(false, mss, wscale, now, recent)) == [1, 1] + ([8, 10] + BigBytes(now) + BigBytes(recent))
  {
    hide BigBytes, Encode, Carried;
    EncodedAs(true, mss, wscale, now, recent);
    EncodedAs(false, mss, wscale, now, recent);
  }

  lemma Regroup(a: seq<byte>, b: seq<byte>, c: seq<byte>, d: seq<byte>)
    ensures a + ((b + c) + d) == ((a + b) + c) + d
  {
  }

  lemma StampPart(now: u32, recent: u32, end: seq<Opt>)
    requires AllFit(end)
    ensures AllFit([Nop] + ([Nop] + ([Stamp(now, recent)] + end)))
    ensures Encode([Nop] + ([Nop] + ([Stamp(now, recent)] + end))) ==
            [NOP, NOP] + ([TIMESTAMP, 10] + BigBytes(now) + BigBytes(recent)) + Encode(end)
  {
    hide BigBytes, Encode;
    var init := Negotiated(0, 0, 0, false, false, 0);
    var l := [Stamp(now, recent)] + end;
    Cons(Stamp(now, recent), end, init);
    Cons(Nop, l, init);
    Cons(Nop, [Nop] + l, init);
    Regroup([NOP], [NOP], [TIMESTAMP, 10] + BigBytes(now) + BigBytes(recent), Encode(end));
    Regroup([], [NOP], [TIMESTAMP, 10] + BigBytes(now) + BigBytes(recent), Encode(end));
    assert [NOP] + [NOP] == [NOP, NOP];
  }

  /** What the list of a generated SYN means. */
  lemma SynMeans(mss: u16, wscale: byte, now: u32, recent: u32, init: Negotiated)
    ensures var opts := Carried(true, mss, wscale, now, recent);
            && Meaning(opts, init) == Negotiated(mss, Wrap16(mss - 12), wscale, init.sackPermit, true, now)
            && FirstStamp(opts) == Some(Stamp(now, recent))
  {
    var opts := Carried(true, mss, wscale, now, recent);
    var end := [Nop] + [Scale(wscale)];
    var l1 := [Stamp(now, recent)] + end;
    var n1 := init.With(MaxSeg(mss));
    var n2 := n1.With(Stamp(now, recent));
    assert opts == [MaxSeg(mss)] + ([Nop] + ([Nop] + l1));
    Cons(MaxSeg(mss), [Nop] + ([Nop] + l1), init);
    Cons(Nop, [Nop] + l1, n1);
    Cons(Nop, l1, n1);
    Cons(Stamp(now, recent), end, n1);
    Cons(Nop, [Scale(wscale)], n2);
    Cons(Scale(wscale), [], n2);
    assert [Scale(wscale)] + [] == [Scale(wscale)];
  }

  /**
   Parsing the options of a generated SYN recovers the segment size, the window scale and the
   timestamp, whatever bytes follow them.
   */
  lemma SynRoundTrip(b: seq<byte>, len: nat, mss: u16, wscale: byte, now: u32, recent: u32, init: Negotiated)
    requires Readable(b, len) && b[..len] == Encode(Carried(true, mss, wscale, now, recent))
    ensures Terminates(SynOptions, b, len, 0)
    ensures Effect(b, len, 0, init) == Negotiated(mss, Wrap16(mss - 12), wscale, init.sackPermit, true, now)
  {
    var opts := Carried(true, mss, wscale, now, recent);
    SynMeans(mss, wscale, now, recent, init);
    Whole(b, len, opts);
    WellFormed(b, len, 0, opts, [], init);
  }

  lemma Whole(b: seq<byte>, len: nat, opts: seq<Opt>)
    requires len <= |b| && AllFit(opts) && b[..len] == Encode(opts)
    ensures Area(b[..len][0..], opts, [])
  {
    assert b[..len][0..] == b[..len] == Encode(opts) + [];
  }

  lemma StampCarried(syn: bool, mss: u16, wscale: byte, now: u32, recent: u32, init: Negotiated)
    ensures FirstStamp(Carried(syn, mss, wscale, now, recent)) == Some(Stamp(now, recent))
  {
    if syn {
      SynMeans(mss, wscale, now, recent, init);
    } else {
      var l1 := [Stamp(now, recent)] + [];
      assert Carried(syn, mss, wscale, now, recent) == [Nop] + ([Nop] + l1);
      Cons(Nop, [Nop] + l1, init);
      Cons(Nop, l1, init);
      Cons(Stamp(now, recent), [], init);
    }
  }

  /** And the timestamp parser recovers the two timestamps of any generated segment. */
  lemma StampRoundTrip(b: seq<byte>, len: nat, syn: bool, mss: u16, wscale: byte, now: u32, recent: u32)
    requires Readable(b, len) && b[..len] == Encode(Carried(syn, mss, wscale, now, recent))
    ensures Terminates(Stamps, b, len, 0) && Find(b, len, 0).Some?
    ensures var at := Find(b, len, 0).value;
            at + 10 <= |b| && LoadBig(b[at + 2..at + 6]) == now && LoadBig(b[at + 6..at + 10]) == recent
  {
    hide Carried, Encode, Area, Advance;
    var init := Negotiated(0, 0, 0, false, false, 0);
    var opts := Carried(syn, mss, wscale, now, recent);
    StampCarried(syn, mss, wscale, now, recent, init);
    Whole(b, len, opts);
    WellFormed(b, len, 0, opts, [], init);
  }
}
