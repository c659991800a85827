/** Requests: an array of bulk strings, parsed in place (the sections "Arrays" and "Bulk strings"
    of the Redis serialization protocol specification). */
module Resp {
  import opened Arith
  import opened Bytes
  import opened CacheRecord

  const CR: byte := 13
  const LF: byte := 10
  const STAR: byte := 42
  const DOLLAR: byte := 36
  const ZERO: byte := 48
  const KV_IOBUF_LEN: nat := 16384
  const ULLONG_MAX: nat := 0xFFFF_FFFF_FFFF_FFFF

  // ---------- Numbers ----------

  predicate IsDigit(b: byte) {
    48 <= b <= 57
  }

  /** Number of leading digits. */
  function DigitRun(s: seq<byte>): (n: nat)
    ensures n <= |s| && (forall i :: 0 <= i < n ==> IsDigit(s[i])) && (n < |s| ==> !IsDigit(s[n]))
  {
    if s == [] || !IsDigit(s[0]) then 0 else 1 + DigitRun(s[1..])
  }

  /** The number that a string of digits denotes. */
  function Value(d: seq<byte>): nat
    requires forall i :: 0 <= i < |d| ==> IsDigit(d[i])
  {
    if d == [] then 0
    else
      assert IsDigit(d[|d| - 1]);
      10 * Value(d[..|d| - 1]) + (d[|d| - 1] - ZERO)
  }

  /** What string2ll yields: the value of the leading digits, if they start with 1 to 9 and fit 64 bits;
      a lone "0" counts as well. */
  function Number(s: seq<byte>): Option<nat> {
    if s == [ZERO] then Some(0)
    else if s == [] || s[0] == ZERO || !IsDigit(s[0]) then None
    else if Value(s[..DigitRun(s)]) > ULLONG_MAX then None
    else Some(Value(s[..DigitRun(s)]))
  }

  lemma ValueSnoc(s: seq<byte>, n: nat)
    requires n < DigitRun(s)
    ensures Value(s[..n + 1]) == 10 * Value(s[..n]) + (s[n] - ZERO)
  {
    assert s[..n + 1][..n] == s[..n];
  }

  lemma {:induction false} ValueMonotone(s: seq<byte>, n: nat, m: nat)
    requires n <= m <= DigitRun(s)
    ensures Value(s[..n]) <= Value(s[..m])
    decreases m
  {
    if n < m {
      ValueMonotone(s, n, m - 1);
      ValueSnoc(s, m - 1);
    }
  }

  /** Each digit counts ten times the one behind it. */
  lemma {:induction false} ValueJoin(a: seq<byte>, b: seq<byte>)
    requires forall i :: 0 <= i < |a| ==> 48 <= a[i] <= 57
    requires forall i :: 0 <= i < |b| ==> 48 <= b[i] <= 57
    ensures Value(a + b) == Value(a) * Pow(10, |b|) + Value(b)
    ensures |b| == 1 ==> Value(b) == b[0] - 48
    decreases |b|
  {
    if b == [] {
      assert a + b == a;
    } else {
      var front, n := b[..|b| - 1], |b| - 1;
      ValueJoin(a, front);
      assert (a + b)[..|a| + n] == a + front;
      assert (a + b)[|a| + n] == b[n];
      TenMore(Value(a), Pow(10, n), Value(front), b[n] - 48);
    }
  }

  lemma TenMore(v: nat, p: nat, f: nat, d: nat)
    ensures 10 * (v * p + f) + d == v * (10 * p) + (10 * f + d)
  {
    Swap(10, v, p);
  }

  /** The overflow guards let through exactly the values that fit 64 bits, and the value is exact. */
  method String2ll(s: seq<byte>) returns (ok: bool, value: nat)
    ensures ok == Number(s).Some?
    ensures ok ==> value == Number(s).value
    ensures ok <==> s == [48]
                    || (s != [] && 49 <= s[0] <= 57 && Value(s[..DigitRun(s)]) < 0x1_0000_0000_0000_0000)
    ensures ok ==> value == if s == [48] then 0 else Value(s[..DigitRun(s)])
  {
    value := 0;
    if |s| == 0 {
      return false, 0;
    }
    if 49 <= s[0] <= 57 {
      value := s[0] - 48;
    } else if s[0] == 48 && |s| == 1 {
      return true, 0;
    } else {
      return false, 0;
    }
    var plen := 1;
    assert s[..1][..0] == [];
    while plen < |s| && 48 <= s[plen] <= 57
      invariant 1 <= plen <= DigitRun(s) && value == Value(s[..plen]) <= ULLONG_MAX
      decreases |s| - plen
    {
      ValueSnoc(s, plen);
      ValueMonotone(s, plen + 1, DigitRun(s));
      if value > ULLONG_MAX / 10 {
        return false, 0;
      }
      value := value * 10;
      if value > ULLONG_MAX - (s[plen] - 48) {
        return false, 0;
      }
      value := value + (s[plen] - 48);
      plen := plen + 1;
    }
    ok := true;
  }

  /** Decimal digits, as %d prints them. */
  function Decimal(n: nat): (d: seq<byte>)
    ensures d != [] && forall i :: 0 <= i < |d| ==> IsDigit(d[i])
    ensures Value(d) == n
    ensures n > 0 ==> d[0] != ZERO
  {
    if n < 10 then
      assert [ZERO + n][..0] == [];
      [ZERO + n]
    else
      var front := Decimal(n / 10);
      assert (front + [ZERO + n % 10])[..|front|] == front;
      front + [ZERO + n % 10]
  }

  /** They are to the base of ten: as many as n has. */
  lemma {:induction false} DecimalLength(n: nat, k: nat)
    ensures |Decimal(n)| > k + 1 <==> n >= Pow(10, k + 1)
    decreases k
  {
    if k > 0 && n >= 10 {
      DecimalLength(n / 10, k - 1);
      TenTimes(n, Pow(10, k));
    } else if n < 10 {
      PowPositive(10, k);
    }
  }

  lemma TenTimes(n: nat, p: nat)
    ensures n / 10 >= p <==> n >= 10 * p
  {
  }

  // ---------- Parsing ----------

  /** strchr(s + pos, '\\r'): the first CR from pos on, if it comes before a NUL and inside the buffer. */
  function FindCR(s: seq<byte>, pos: nat): (r: Option<nat>)
    ensures r.Some? ==> pos <= r.value < |s| && s[r.value] == CR
    decreases |s| - pos
  {
    if pos >= |s| || s[pos] == 0 then None
    else if s[pos] == CR then Some(pos)
    else FindCR(s, pos + 1)
  }

  /** How a parse ends. OutOfBuffer stands for every access outside the buffer. */
  datatype Status = Done | BadType | BadElement | OutOfBuffer

  datatype Parsed = Parsed(argv: seq<Text>, status: Status)

  /** One element: its payload, where the next one starts, and the length in force. */
  datatype Element = Payload(arg: Text, next: nat, len: nat) | Stop(status: Status)

  /** One turn of the loop of parsingMessage, on a buffer that is not overwritten. A length that
      string2ll does not accept leaves the previous one in force. */
  function ElementAt(s: seq<byte>, pos: nat, len: nat): (e: Element)
    ensures e.Stop? ==> e.status == BadElement || e.status == OutOfBuffer
  {
    if pos >= |s| then Stop(OutOfBuffer)
    else
      var newline := FindCR(s, pos);
      if s[pos] != DOLLAR then Stop(BadElement)
      else if newline.None? || newline.value + 2 > |s| then Stop(OutOfBuffer)
      else
        var start := newline.value + 2;
        var number := Number(s[pos + 1..start]);
        var len' := if number.Some? then number.value else len;
        if start + len' >= |s| then Stop(OutOfBuffer)
        else Payload(s[start..start + len'], start + len' + 2, len')
  }

  function Elements(s: seq<byte>, pos: nat, count: nat, len: nat): Parsed
    decreases count
  {
    if count == 0 then Parsed([], Done)
    else match ElementAt(s, pos, len)
      case Stop(status) => Parsed([], status)
      case Payload(arg, next, len') =>
        var rest := Elements(s, next, count - 1, len');
        Parsed([arg] + rest.argv, rest.status)
  }

  /** parsingMessage: the count is the one character after the star, less '0'. (A negative count
      would be used as an allocation size.) */
  function Parse(s: seq<byte>): Parsed {
    if |s| < 2 || s[0] != STAR || FindCR(s, 0).None? then Parsed([], BadType)
    else if s[1] < ZERO || s[1] >= 128 then Parsed([], OutOfBuffer)
    else Elements(s, FindCR(s, 0).value + 2, s[1] - ZERO, 0)
  }

  /** A 13 before the first 0, if there is one. */
  predicate HasLine(s: seq<byte>) {
    exists i :: 0 <= i < |s| && s[i] == 13 && forall j :: 0 <= j < i ==> s[j] != 0
  }

  lemma {:induction false} FindCRExactly(s: seq<byte>, pos: nat)
    ensures match FindCR(s, pos)
            case Some(at) => pos <= at < |s| && s[at] == 13 && forall j :: pos <= j < at ==> s[j] != 0 && s[j] != 13
            case None => forall i :: pos <= i < |s| && s[i] == 13 ==> exists j :: pos <= j < i && s[j] == 0
    decreases |s| - pos
  {
    if pos < |s| && s[pos] != 0 && s[pos] != CR {
      FindCRExactly(s, pos + 1);
    }
  }

  lemma {:induction false} ElementsStatus(s: seq<byte>, pos: nat, count: nat, len: nat)
    ensures var p := Elements(s, pos, count, len); p.status != BadType && (p.status == Done <==> |p.argv| == count)
    decreases count
  {
    if count > 0 {
      hide ElementAt;
      match ElementAt(s, pos, len)
      case Stop(_) =>
      case Payload(arg, next, len') => ElementsStatus(s, next, count - 1, len');
    }
  }

  /** Which requests are refused, and how many arguments one has that is not: what the second byte says. */
  lemma ParseStatus(s: seq<byte>)
    ensures Parse(s).status == BadType <==> |s| < 2 || s[0] != 42 || !HasLine(s)
    ensures Parse(s).status == Done ==> |Parse(s).argv| + 48 == s[1] < 128
  {
    FindCRExactly(s, 0);
    if |s| >= 2 && s[0] == STAR && FindCR(s, 0).Some? && ZERO <= s[1] < 128 {
      ElementsStatus(s, FindCR(s, 0).value + 2, s[1] - ZERO, 0);
      hide Elements;
    }
  }

  /** What lies before pos does not matter to the search. */
  lemma {:induction false} FindCRSuffix(a: seq<byte>, b: seq<byte>, pos: nat)
    requires |a| == |b| && forall i :: pos <= i < |a| ==> a[i] == b[i]
    ensures FindCR(a, pos) == FindCR(b, pos)
    decreases |a| - pos
  {
    if pos < |a| && a[pos] != 0 && a[pos] != CR {
      FindCRSuffix(a, b, pos + 1);
    }
  }

  lemma SliceSuffix(a: seq<byte>, b: seq<byte>, pos: nat, lo: nat, hi: nat)
    requires |a| == |b| && forall i :: pos <= i < |a| ==> a[i] == b[i]
    requires pos <= lo <= hi <= |a|
    ensures a[lo..hi] == b[lo..hi]
  {
  }

  lemma ElementSuffix(a: seq<byte>, b: seq<byte>, pos: nat, len: nat)
    requires |a| == |b| && forall i :: pos <= i < |a| ==> a[i] == b[i]
    ensures ElementAt(a, pos, len) == ElementAt(b, pos, len)
  {
    hide FindCR, Number;
    FindCRSuffix(a, b, pos);
    var newline := FindCR(a, pos);
    if pos < |a| && newline.Some? && newline.value + 2 <= |a| {
      var start := newline.value + 2;
      SliceSuffix(a, b, pos, pos + 1, start);
      var number := Number(a[pos + 1..start]);
      var len' := if number.Some? then number.value else len;
      if start + len' < |a| {
        SliceSuffix(a, b, pos, start, start + len');
      }
    }
  }

  /** The rest of a parse does not depend on what lies before it. */
  lemma {:induction false} ElementsSuffix(a: seq<byte>, b: seq<byte>, pos: nat, count: nat, len: nat)
    requires |a| == |b| && forall i :: pos <= i < |a| ==> a[i] == b[i]
    ensures Elements(a, pos, count, len) == Elements(b, pos, count, len)
    decreases count
  {
    if count > 0 {
      ElementSuffix(a, b, pos, len);
      hide FindCR, Number;
      match ElementAt(a, pos, len)
      case Stop(_) =>
      case Payload(arg, next, len') => ElementsSuffix(a, b, next, count - 1, len');
    }
  }

  // ---------- Requests and replies ----------

  const CRLF: seq<byte> := [CR, LF]

  /** One bulk string; also the reply of getCommand, "$%d\r\n%s\r\n". */
  function Bulk(a: Text): seq<byte> {
    [DOLLAR] + Decimal(|a|) + CRLF + a + CRLF
  }

  function Bulks(args: seq<Text>): seq<byte> {
    if args == [] then [] else Bulk(args[0]) + Bulks(args[1..])
  }

  function Request(args: seq<Text>): seq<byte> {
    [STAR] + Decimal(|args|) + CRLF + Bulks(args)
  }

  /** The first bytes of a request and of a bulk string; every line ends with 13, 10. */
  lemma RequestBytes(args: seq<Text>, a: Text)
    ensures var r, n := Request(args), |Decimal(|args|)|;
      |r| == n + 3 + |Bulks(args)| && r[0] == 42 && r[n + 1] == 13 && r[n + 2] == 10
    ensures var b, n := Bulk(a), |Decimal(|a|)|;
      && |b| == n + |a| + 5 && b[0] == 36 && b[n + 1] == 13 && b[n + 2] == 10
      && b[n + 3..n + 3 + |a|] == a && b[n + 3 + |a|] == 13 && b[n + 4 + |a|] == 10
  {
    hide Decimal;
  }

  lemma {:induction false} FindCRAt(s: seq<byte>, pos: nat, at: nat)
    requires pos <= at < |s| && s[at] == CR
    requires forall i :: pos <= i < at ==> s[i] != 0 && s[i] != CR
    ensures FindCR(s, pos) == Some(at)
    decreases at - pos
  {
    if pos < at {
      FindCRAt(s, pos + 1, at);
    }
  }

  lemma {:induction false} DigitRunWhole(d: seq<byte>, rest: seq<byte>)
    requires forall i :: 0 <= i < |d| ==> IsDigit(d[i])
    requires rest != [] && !IsDigit(rest[0])
    ensures DigitRun(d + rest) == |d|
  {
    if d != [] {
      assert (d + rest)[1..] == d[1..] + rest;
      DigitRunWhole(d[1..], rest);
    } else {
      assert d + rest == rest;
    }
  }

  /** string2ll is handed the separator too, so a printed number is read back unless it is 0. */
  lemma NumberOfDecimal(n: nat)
    ensures Number(Decimal(n) + CRLF) == if 0 < n <= ULLONG_MAX then Some(n) else None
  {
    var d := Decimal(n);
    DigitRunWhole(d, CRLF);
    assert (d + CRLF)[..|d|] == d;
    if n == 0 {
      assert d == [ZERO];
    } else {
      assert (d + CRLF)[0] == d[0] && IsDigit(d[0]);
    }
  }

  /** The length line of a bulk string, wherever it stands. */
  lemma BulkHeader(front: seq<byte>, a: Text, tail: seq<byte>)
    ensures var s := front + Bulk(a) + tail; var start := |front| + |Decimal(|a|)| + 3;
            && start + |a| + 2 == |front + Bulk(a)|
            && s[|front|] == DOLLAR
            && FindCR(s, |front|) == Some(start - 2)
            && s[|front| + 1..start] == Decimal(|a|) + CRLF
            && s[start..start + |a|] == a
  {
    var s := front + Bulk(a) + tail;
    var d := Decimal(|a|);
    var start := |front| + |d| + 3;
    assert s == front + ([DOLLAR] + d + CRLF) + (a + CRLF + tail);
    assert s[|front| + 1..start] == d + CRLF;
    forall i | |front| <= i < start - 2
      ensures s[i] != 0 && s[i] != CR
    {
      if i > |front| {
        assert s[i] == d[i - |front| - 1] && IsDigit(s[i]);
      }
    }
    hide Decimal;
    FindCRAt(s, |front|, start - 2);
  }

  /** One turn on a bulk string. A non-empty payload is read exactly, whatever its bytes; an empty
      one is read as `len` bytes, the length of the element before it. */
  lemma BulkElement(front: seq<byte>, a: Text, tail: seq<byte>, len: nat)
    requires |a| <= ULLONG_MAX
    ensures var s := front + Bulk(a) + tail; var e := ElementAt(s, |front|, len);
            if a != [] || len == 0 then e == Payload(a, |front + Bulk(a)|, |a|)
            else e.Payload? ==> |e.arg| == len
  {
    hide FindCR, Number, Decimal, Bulk;
    BulkHeader(front, a, tail);
    NumberOfDecimal(|a|);
  }

  /** Which arguments survive, when the element before them has length `len`. */
  predicate Readable(args: seq<Text>, len: nat) {
    args == [] || ((args[0] == [] ==> len == 0) && Readable(args[1..], |args[0]|))
  }

  /** No empty argument follows a non-empty one. */
  predicate EmptiesFirst(args: seq<Text>) {
    forall i, j :: 0 <= i < j < |args| && args[j] == [] ==> args[i] == []
  }

  lemma {:induction false} ReadableExact(args: seq<Text>, len: nat)
    ensures Readable(args, len) <==> EmptiesFirst(args) && (len > 0 ==> [] !in args)
  {
    if args != [] {
      var rest := args[1..];
      ReadableExact(rest, |args[0]|);
      assert args == [args[0]] + rest;
      if EmptiesFirst(args) {
        assert EmptiesFirst(rest) by {
          forall i, j | 0 <= i < j < |rest| && rest[j] == []
            ensures rest[i] == []
          {
            assert args[i + 1] == rest[i] && args[j + 1] == rest[j];
          }
        }
        if [] in rest {
          var j :| 0 <= j < |rest| && rest[j] == [];
          assert args[j + 1] == [];
        }
      }
      if Readable(args, len) {
        forall i, j | 0 <= i < j < |args| && args[j] == []
          ensures args[i] == []
        {
          assert rest[j - 1] == [];
          if i > 0 {
            assert rest[i - 1] == args[i];
          }
        }
      }
    }
  }

  lemma Regroup(w: seq<byte>, x: seq<byte>, y: seq<byte>, z: seq<byte>)
    ensures w + (x + y) + z == w + x + (y + z) == (w + x) + y + z
  {
  }

  lemma BulksSplit(front: seq<byte>, args: seq<Text>, tail: seq<byte>)
    requires args != []
    ensures var s := front + Bulks(args) + tail; var rest := Bulks(args[1..]);
            && s == front + Bulk(args[0]) + (rest + tail) == (front + Bulk(args[0])) + rest + tail
            && |Bulks(args)| == |Bulk(args[0])| + |rest|
            && |args[0]| <= |Bulk(args[0])|
  {
    hide Decimal;
    Regroup(front, Bulk(args[0]), Bulks(args[1..]), tail);
  }

  lemma {:induction false} ElementsExact(front: seq<byte>, args: seq<Text>, tail: seq<byte>, len: nat)
    requires |Bulks(args)| <= ULLONG_MAX
    ensures Elements(front + Bulks(args) + tail, |front|, |args|, len) == Parsed(args, Done) <==> Readable(args, len)
    decreases |args|
  {
    hide ElementAt, Bulk, Bulks;
    if args != [] {
      var a, rest := args[0], args[1..];
      BulksSplit(front, args, tail);
      BulkElement(front, a, Bulks(rest) + tail, len);
      assert args == [a] + rest;
      if a != [] || len == 0 {
        ElementsExact(front + Bulk(a), rest, tail, |a|);
      }
    }
  }

  lemma {:induction false} ElementsAtMost(s: seq<byte>, pos: nat, count: nat, len: nat)
    ensures |Elements(s, pos, count, len).argv| <= count
    decreases count
  {
    if count > 0 && ElementAt(s, pos, len).Payload? {
      ElementsAtMost(s, ElementAt(s, pos, len).next, count - 1, ElementAt(s, pos, len).len);
    }
  }

  /** Only the first digit of the count is looked at. */
  lemma DecimalDigits(n: nat)
    ensures var d := Decimal(n); d[0] - ZERO == n <==> n < 10
    ensures IsDigit(Decimal(n)[0])
  {
  }

  /** The count line of a request. */
  lemma RequestHeader(args: seq<Text>, tail: seq<byte>)
    ensures var s := Request(args) + tail; var d := Decimal(|args|);
            && |s| >= 2 && s[0] == STAR && s[1] == d[0]
            && FindCR(s, 0) == Some(1 + |d|)
            && s == ([STAR] + d + CRLF) + Bulks(args) + tail
  {
    hide Decimal, Bulks, FindCR;
    var d := Decimal(|args|);
    var s := Request(args) + tail;
    assert s == ([STAR] + d + CRLF) + Bulks(args) + tail;
    forall i | 0 <= i < 1 + |d|
      ensures s[i] != 0 && s[i] != CR
    {
      if i > 0 {
        assert s[i] == d[i - 1] && IsDigit(s[i]);
      }
    }
    assert s[1 + |d|] == CR;
    FindCRAt(s, 0, 1 + |d|);
  }

  /** The parse reads as many elements as the first digit of the count says. */
  lemma ParseRequest(args: seq<Text>, tail: seq<byte>)
    ensures IsDigit(Decimal(|args|)[0])
    ensures var d := Decimal(|args|);
            Parse(Request(args) + tail) == Elements(([STAR] + d + CRLF) + Bulks(args) + tail, |d| + 3, d[0] - ZERO, 0)
  {
    hide Decimal, Bulks, Request, Elements, FindCR;
    RequestHeader(args, tail);
    assert IsDigit(Decimal(|args|)[0]);
  }

  /** The round trip: the arguments of a request come back, whatever bytes they hold and whatever
      follows the request in the buffer, exactly when there are at most nine of them and no empty
      one follows a non-empty one. */
  lemma RequestRoundTrip(args: seq<Text>, tail: seq<byte>)
    requires |Request(args)| <= ULLONG_MAX
    ensures Parse(Request(args) + tail) == Parsed(args, Done) <==> |args| <= 9 && EmptiesFirst(args)
  {
    hide Decimal, Bulks, Parse, Elements, Readable, EmptiesFirst;
    var d := Decimal(|args|);
    var header := [STAR] + d + CRLF;
    ParseRequest(args, tail);
    DecimalDigits(|args|);
    ReadableExact(args, 0);
    assert |Bulks(args)| <= |Request(args)|;
    hide Request;
    ElementsExact(header, args, tail, 0);
    ElementsAtMost(header + Bulks(args) + tail, |d| + 3, d[0] - ZERO, 0);
  }

  /** A reply is read back by the same element step, started afresh. */
  lemma ReplyRoundTrip(value: Text, tail: seq<byte>)
    requires |value| <= ULLONG_MAX
    ensures ElementAt(Bulk(value) + tail, 0, 0) == Payload(value, |Bulk(value)|, |value|)
  {
    BulkElement([], value, tail, 0);
    assert [] + Bulk(value) + tail == Bulk(value) + tail;
    assert [] + Bulk(value) == Bulk(value);
  }

  /** "$7\r\n+Empty!\r\n". */
  const EMPTY_REPLY: seq<byte> := [36, 55, 13, 10, 43, 69, 109, 112, 116, 121, 33, 13, 10]

  /** The reply of getCommand: the value found, or "+Empty!". */
  function Reply(r: Option<Text>): seq<byte> {
    match r
    case Some(value) => Bulk(value)
    case None => EMPTY_REPLY
  }

  /** What a client reads out of a reply. */
  function Visible(r: Option<Text>): Text {
    match r
    case Some(value) => value
    case None => [43, 69, 109, 112, 116, 121, 33]
  }

  lemma EmptyReplyIsBulk()
    ensures EMPTY_REPLY == Bulk(Visible(None))
  {
    assert Decimal(7) == [55];
  }

  /** Replies tell apart all outcomes of a get but two: a missing key looks like the value "+Empty!". */
  lemma RepliesDiffer(r: Option<Text>, q: Option<Text>)
    requires |Visible(r)| <= ULLONG_MAX && |Visible(q)| <= ULLONG_MAX
    ensures Reply(r) == Reply(q) <==> Visible(r) == Visible(q)
  {
    hide Bulk;
    EmptyReplyIsBulk();
    ReplyRoundTrip(Visible(r), []);
    ReplyRoundTrip(Visible(q), []);
  }

  lemma NoElements(s: seq<byte>, pos: nat, len: nat)
    ensures Elements(s, pos, 0, len) == Parsed([], Done)
  {
  }

  /** A turn may overwrite everything before the next element. */
  lemma NextElement(s: seq<byte>, after: seq<byte>, pos: nat, count: nat, len: nat)
    requires count > 0 && |s| == |after|
    requires var e := ElementAt(s, pos, len); e.Payload? ==> forall i :: e.next <= i < |s| ==> s[i] == after[i]
    ensures Elements(s, pos, count, len) ==
            match ElementAt(s, pos, len)
            case Stop(status) => Parsed([], status)
            case Payload(arg, next, len') =>
              var rest := Elements(after, next, count - 1, len');
              Parsed([arg] + rest.argv, rest.status)
  {
    var e := ElementAt(s, pos, len);
    if e.Payload? {
      ElementsSuffix(s, after, e.next, count - 1, e.len);
    }
  }

  class Client {
    const querybuf: array<byte>
    var argv: seq<Text>

    constructor ()
      ensures querybuf.Length == KV_IOBUF_LEN == 16 * 1024 && fresh(querybuf) && argv == []
    {
      querybuf := new byte[KV_IOBUF_LEN](_ => 0);
      argv := [];
    }

    /** One turn of the loop: copy the payload out, and put a NUL where its separator begins. */
    method ParseElement(pos: nat, len: nat) returns (e: Element)
      modifies querybuf
      ensures e == ElementAt(old(querybuf[..]), pos, len)
      ensures e == Stop(BadElement) <==> pos < querybuf.Length && old(querybuf[pos]) != 36
      ensures e.Payload? ==>
                pos <= e.next && forall i :: e.next <= i < querybuf.Length ==> querybuf[i] == old(querybuf[i])
    {
      if pos >= querybuf.Length {
        return Stop(OutOfBuffer);
      }
      var newline := StrChr(pos);
      if querybuf[pos] != DOLLAR {
        return Stop(BadElement);
      }
      if newline.None? || newline.value + 2 > querybuf.Length {
        return Stop(OutOfBuffer);
      }
      var start := newline.value + 2;
      var ok, v := String2ll(querybuf[pos + 1..start]);
      var len' := if ok then v else len;
      assert querybuf[pos + 1..start] == querybuf[..][pos + 1..start];
      if start + len' >= querybuf.Length {
        return Stop(OutOfBuffer);
      }
      querybuf[start + len'] := 0;
      e := Payload(querybuf[start..start + len'], start + len' + 2, len');
      assert querybuf[start..start + len'] == old(querybuf[..])[start..start + len'];
    }

    /** Although it overwrites the buffer as it goes, the parse yields what the buffer held at first. */
    method ParsingMessage() returns (status: Status)
      requires querybuf.Length == KV_IOBUF_LEN
      modifies this, querybuf
      ensures status == Parse(old(querybuf[..])).status
      ensures status == BadType <==> old(querybuf[0]) != 42 || !HasLine(old(querybuf[..]))
      ensures argv == if status == BadType then old(argv) else Parse(old(querybuf[..])).argv
    {
      hide FindCR, ElementAt, Elements;
      ghost var s := querybuf[..];
      ParseStatus(s);
      if querybuf[0] != STAR {
        return BadType;
      }
      var newline := StrChr(0);
      if newline.None? {
        return BadType;
      }
      argv := [];
      if querybuf[1] < ZERO || querybuf[1] >= 128 {
        return OutOfBuffer;
      }
      var msgLen: nat := querybuf[1] - 48;
      var pos := newline.value + 2;
      var len := 0;
      ghost var rest := Elements(s, pos, msgLen, len);
      while msgLen > 0
        invariant rest == Elements(querybuf[..], pos, msgLen, len)
        invariant Parse(s) == Parsed(argv + rest.argv, rest.status)
      {
        ghost var now := querybuf[..];
        var e := ParseElement(pos, len);
        NextElement(now, querybuf[..], pos, msgLen, len);
        match e {
          case Stop(st) =>
            assert argv + [] == argv;
            return st;
          case Payload(arg, next, len') =>
            rest := Elements(querybuf[..], next, msgLen - 1, len');
            assert argv + ([arg] + rest.argv) == argv + [arg] + rest.argv;
            argv := argv + [arg];
            pos, len := next, len';
        }
        msgLen := msgLen - 1;
      }
      NoElements(querybuf[..], pos, len);
      status := Done;
    }

    method StrChr(pos: nat) returns (r: Option<nat>)
      ensures r == FindCR(querybuf[..], pos)
    {
      var i := pos;
      while i < querybuf.Length && querybuf[i] != 0
        invariant FindCR(querybuf[..], pos) == FindCR(querybuf[..], i)
      {
        if querybuf[i] == CR {
          return Some(i);
        }
        i := i + 1;
      }
      r := None;
    }
  }
}
