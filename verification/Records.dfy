/** Length-prefixed records as byte strings.

    A record is a header of one or two bytes, the length with its low byte first, followed by that
    many bytes.  `Encode` writes a queue of records and `Decode` reads one back. */
module Records {
  import opened KfifoCore

  /** Header widths the record macros use. */
  predicate HeaderSize(rs: nat) {
    rs == 1 || rs == 2
  }

  /** One more than the largest length a header can hold. */
  function Limit(rs: nat): nat {
    if rs == 1 then 0x100 else 0x1_0000
  }

  /** What `__kfifo_poke_n` stores: the low byte or bytes of `n`. */
  function Header(n: nat, rs: nat): (h: seq<Byte>)
    requires HeaderSize(rs)
    ensures |h| == rs
  {
    if rs == 1 then [n % 256] else [n % 256, n / 256 % 256]
  }

  function HeaderValue(c: seq<Byte>, rs: nat): (n: nat)
    requires HeaderSize(rs) && |c| >= rs
    ensures n < Limit(rs)
  {
    var low: int, high: int := c[0], if rs == 1 then 0 else c[1];
    low + 256 * high
  }

  lemma HeaderRoundTrip(n: nat, rs: nat, rest: seq<Byte>)
    requires HeaderSize(rs)
    ensures HeaderValue(Header(n, rs) + rest, rs) == n % Limit(rs)
  {
    var c := Header(n, rs) + rest;
    assert c[0] == n % 256;
    if rs == 2 {
      assert c[1] == n / 256 % 256;
      TwoDigits(n, n / 256, n / 256 / 256);
    }
  }

  lemma TwoDigits(n: nat, m: nat, q: nat)
    requires m == n / 256 && q == m / 256
    ensures n % 256 + 256 * (m % 256) == n % 0x1_0000
  {
    assert n == 0x1_0000 * q + (n % 256 + 256 * (m % 256));
  }

  /** The header's low byte comes first. */
  lemma HeaderBytes()
    ensures Header(0x1234, 2) == [0x34, 0x12] && Header(0x1234, 1) == [0x34]
    ensures HeaderValue([0x34, 0x12], 2) == 0x1234 && HeaderValue([0x34, 0x12], 1) == 0x34
  {}

  lemma ValueRoundTrip(c: seq<Byte>, rs: nat)
    requires HeaderSize(rs) && |c| >= rs
    ensures Header(HeaderValue(c, rs), rs) == c[..rs]
  {}

  /** `c` is a concatenation of whole records. */
  ghost predicate WellFormed(c: seq<Byte>, rs: nat)
    requires HeaderSize(rs)
    decreases |c|
  {
    c == [] ||
    (|c| >= rs && |c| >= rs + HeaderValue(c, rs) && WellFormed(c[rs + HeaderValue(c, rs)..], rs))
  }

  ghost function Decode(c: seq<Byte>, rs: nat): (q: seq<seq<Byte>>)
    requires HeaderSize(rs) && WellFormed(c, rs)
    ensures c == [] <==> q == []
    decreases |c|
  {
    if c == [] then []
    else
      var n := HeaderValue(c, rs);
      [c[rs..rs + n]] + Decode(c[rs + n..], rs)
  }

  function Record(body: seq<Byte>, rs: nat): seq<Byte>
    requires HeaderSize(rs)
  {
    Header(|body|, rs) + body
  }

  function Encode(q: seq<seq<Byte>>, rs: nat): seq<Byte>
    requires HeaderSize(rs)
  {
    if q == [] then [] else Record(q[0], rs) + Encode(q[1..], rs)
  }

  lemma FirstRecord(body: seq<Byte>, rest: seq<Byte>, rs: nat)
    requires HeaderSize(rs) && |body| < Limit(rs)
    ensures var c := Record(body, rs) + rest;
            && |c| >= rs + |body| && HeaderValue(c, rs) == |body|
            && c[rs..rs + |body|] == body && c[rs + |body|..] == rest
  {
    var c := Record(body, rs) + rest;
    assert c == Header(|body|, rs) + (body + rest);
    HeaderRoundTrip(|body|, rs, body + rest);
  }

  lemma NoRecords(rs: nat)
    requires HeaderSize(rs)
    ensures WellFormed([], rs) && Decode([], rs) == []
  {}

  /** Putting one record in front. */
  lemma ConsRecord(body: seq<Byte>, rest: seq<Byte>, rs: nat)
    requires HeaderSize(rs) && |body| < Limit(rs)
    ensures Record(body, rs) + rest != []
    ensures WellFormed(Record(body, rs) + rest, rs) <==> WellFormed(rest, rs)
    ensures WellFormed(rest, rs) ==>
              Decode(Record(body, rs) + rest, rs) == [body] + Decode(rest, rs)
  {
    FirstRecord(body, rest, rs);
    hide HeaderValue, Record;
  }

  /** Every nonempty well-formed string is one record in front of a well-formed string. */
  lemma HeadRecord(c: seq<Byte>, rs: nat)
    requires HeaderSize(rs) && WellFormed(c, rs) && c != []
    ensures var n := HeaderValue(c, rs);
            && rs <= |c| && rs + n <= |c| && WellFormed(c[rs + n..], rs)
            && c == Record(c[rs..rs + n], rs) + c[rs + n..]
            && Decode(c, rs) == [c[rs..rs + n]] + Decode(c[rs + n..], rs)
  {
    hide HeaderValue, Header, Record;
    FrontRecord(c, rs);
  }

  lemma FrontRecord(c: seq<Byte>, rs: nat)
    requires HeaderSize(rs) && |c| >= rs && |c| >= rs + HeaderValue(c, rs)
    ensures var n := HeaderValue(c, rs); c == Record(c[rs..rs + n], rs) + c[rs + n..]
  {
    ValueRoundTrip(c, rs);
    hide HeaderValue, Header;
    var n := HeaderValue(c, rs);
    assert |c[rs..rs + n]| == n;
    assert c == c[..rs] + c[rs..rs + n] + c[rs + n..];
  }

  /** Reading back what was written. */
  lemma {:induction false} DecodeEncode(q: seq<seq<Byte>>, rs: nat)
    requires HeaderSize(rs) && forall r | r in q :: |r| < Limit(rs)
    ensures WellFormed(Encode(q, rs), rs) && Decode(Encode(q, rs), rs) == q
  {
    hide Record;
    if q != [] {
      DecodeEncode(q[1..], rs);
      ConsRecord(q[0], Encode(q[1..], rs), rs);
    }
  }

  /** Writing what was read: a well-formed string is determined by its records. */
  lemma {:induction false} EncodeDecode(c: seq<Byte>, rs: nat)
    requires HeaderSize(rs) && WellFormed(c, rs)
    ensures Encode(Decode(c, rs), rs) == c
    decreases |c|
  {
    hide HeaderValue, Record;
    if c != [] {
      HeadRecord(c, rs);
      EncodeDecode(c[rs + HeaderValue(c, rs)..], rs);
    }
  }

  /** Whole records stay whole when more bytes follow. */
  lemma {:induction false} DecodeAppend(c: seq<Byte>, d: seq<Byte>, rs: nat)
    requires HeaderSize(rs) && WellFormed(c, rs)
    ensures WellFormed(c + d, rs) <==> WellFormed(d, rs)
    ensures WellFormed(d, rs) ==> Decode(c + d, rs) == Decode(c, rs) + Decode(d, rs)
    decreases |c|
  {
    hide WellFormed, Decode, Record, HeaderValue;
    if c == [] {
      assert c + d == d;
      assert Decode(c, rs) == [];
    } else {
      HeadRecord(c, rs);
      var n := HeaderValue(c, rs);
      var body, rest := c[rs..rs + n], c[rs + n..];
      DecodeAppend(rest, d, rs);
      assert c + d == Record(body, rs) + (rest + d);
      ConsRecord(body, rest + d, rs);
      if WellFormed(d, rs) {
        assert [body] + (Decode(rest, rs) + Decode(d, rs)) == Decode(c, rs) + Decode(d, rs);
      }
    }
  }

  /** Appending header and body appends one record exactly when the length fits the header; a
      longer body is never read back as that record. */
  lemma AppendRecord(c: seq<Byte>, body: seq<Byte>, rs: nat)
    requires HeaderSize(rs) && WellFormed(c, rs)
    ensures |body| < Limit(rs) <==>
              && WellFormed(c + Record(body, rs), rs)
              && Decode(c + Record(body, rs), rs) == Decode(c, rs) + [body]
  {
    hide WellFormed, Decode, HeaderValue;
    var r := Record(body, rs);
    DecodeAppend(c, r, rs);
    if |body| < Limit(rs) {
      NoRecords(rs);
      ConsRecord(body, [], rs);
      assert r + [] == r;
    } else if WellFormed(r, rs) {
      HeadRecord(r, rs);
      var d := Decode(r, rs);
      assert |d[0]| == HeaderValue(r, rs) < Limit(rs);
      assert (Decode(c, rs) + d)[|Decode(c, rs)|] == d[0];
    }
  }

  /** A body of 256 bytes behind a one-byte header is not read back. */
  lemma LongBody(body: seq<Byte>)
    requires |body| == 256
    ensures !(WellFormed(Record(body, 1), 1) && Decode(Record(body, 1), 1) == [body])
  {
    hide WellFormed, Decode;
    NoRecords(1);
    AppendRecord([], body, 1);
    assert [] + Record(body, 1) == Record(body, 1);
  }
}
