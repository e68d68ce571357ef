/** The JSON of `AppVoteExtension` and `SpecialTransaction`: one object with an integer
    and an array of base64 strings (RFC 8259). The two structs have the same shape. */
module Json {
  import opened Types
  import Base64

  const QUOTE: byte := 34
  const COMMA: byte := 44
  const MINUS: byte := 45
  const ZERO: byte := 48
  const OPEN: byte := 91
  const CLOSE: byte := 93
  const END: byte := 125

  /** `{"Height":` and `,"Bids":` */
  const HEIGHT_KEY: Bytes := [123, 34, 72, 101, 105, 103, 104, 116, 34, 58]
  const BIDS_KEY: Bytes := [44, 34, 66, 105, 100, 115, 34, 58]

  // ----- Concatenation -----

  lemma {:induction false} Regroup(a: Bytes, b: Bytes, c: Bytes)
    ensures (a + b) + c == a + (b + c)
  {
  }

  lemma {:induction false} DropHead(c: byte, s: Bytes)
    ensures ([c] + s)[1..] == s && ([c] + s)[0] == c
  {
  }

  lemma {:induction false} Split(a: Bytes, b: Bytes, c: Bytes, d: Bytes, e: Bytes)
    ensures var s := a + b + c + d + e; var t := c + (d + e);
            a <= s && s[|a|..] == b + t && c <= t && t[|c|..] == d + e
  {
  }

  lemma {:induction false} Join(a: Bytes, b: Bytes, c: Bytes, d: Bytes, e: Bytes, s: Bytes, t: Bytes)
    requires a <= s && b + t == s[|a|..] && c <= t && d + e == t[|c|..]
    ensures a + b + c + d + e == s
  {
    assert s == a + s[|a|..];
    assert t == c + t[|c|..];
  }

  // ----- Integers -----

  predicate IsDigit(c: byte) {
    48 <= c <= 57
  }

  function PrintNat(n: nat): (s: Bytes)
    ensures |s| > 0 && forall i | 0 <= i < |s| :: IsDigit(s[i])
    ensures n > 0 ==> s[0] != ZERO
  {
    if n < 10 then [48 + n] else PrintNat(n / 10) + [48 + n % 10]
  }

  function PrintInt(n: int): Bytes {
    if n < 0 then [MINUS] + PrintNat(-n) else PrintNat(n)
  }

  function NatValue(s: Bytes): nat
    requires forall i | 0 <= i < |s| :: IsDigit(s[i])
  {
    if |s| == 0 then 0
    else
      assert IsDigit(s[|s| - 1]);
      NatValue(s[..|s| - 1]) * 10 + (s[|s| - 1] as int - 48)
  }

  /** How many bytes at the front satisfy IsDigit. */
  function DigitSpan(s: Bytes): (n: nat)
    ensures n <= |s| && (forall i | 0 <= i < n :: IsDigit(s[i]))
    ensures n < |s| ==> !IsDigit(s[n])
  {
    if |s| > 0 && IsDigit(s[0]) then 1 + DigitSpan(s[1..]) else 0
  }

  /** A digit string without superfluous leading zeros, and what follows it. */
  function ParseNat(s: Bytes): Option<(int, Bytes)> {
    var n := DigitSpan(s);
    if n == 0 || (n > 1 && s[0] == ZERO) then None else Some((NatValue(s[..n]), s[n..]))
  }

  function ParseInt(s: Bytes): Option<(int, Bytes)> {
    if |s| > 0 && s[0] == MINUS then
      match ParseNat(s[1..])
      case Some((n, rest)) => if n == 0 then None else Some((-n, rest))
      case None => None
    else
      match ParseNat(s)
      case Some((n, rest)) => Some((n, rest))
      case None => None
  }

  lemma {:induction false} NatValuePrint(n: nat)
    ensures NatValue(PrintNat(n)) == n
  {
    if n >= 10 {
      NatValuePrint(n / 10);
      assert PrintNat(n)[..|PrintNat(n)| - 1] == PrintNat(n / 10);
    }
  }

  lemma {:induction false} PrintNatValue(s: Bytes)
    requires |s| > 0 && forall i | 0 <= i < |s| :: IsDigit(s[i])
    requires |s| > 1 ==> s[0] != ZERO
    ensures PrintNat(NatValue(s)) == s
    ensures s[0] != ZERO ==> NatValue(s) > 0
  {
    var front := s[..|s| - 1];
    if |s| == 1 {
      assert s == [s[0]];
      assert NatValue(front) == 0;
    } else {
      PrintNatValue(front);
      assert s == front + [s[|s| - 1]];
    }
  }

  lemma {:induction false} DigitSpanIs(s: Bytes, n: nat)
    requires n <= |s| && forall i | 0 <= i < n :: IsDigit(s[i])
    requires n < |s| ==> !IsDigit(s[n])
    ensures DigitSpan(s) == n
  {
    if n > 0 {
      DigitSpanIs(s[1..], n - 1);
    }
  }

  lemma {:induction false} ParsePrintNat(n: nat, rest: Bytes)
    requires |rest| > 0 ==> !IsDigit(rest[0])
    ensures ParseNat(PrintNat(n) + rest) == Some((n, rest))
  {
    var digits := PrintNat(n);
    var t := digits + rest;
    DigitSpanIs(t, |digits|);
    assert t[..|digits|] == digits && t[|digits|..] == rest;
    NatValuePrint(n);
  }

  lemma {:induction false} ParsePrintInt(n: int, rest: Bytes)
    requires |rest| > 0 ==> !IsDigit(rest[0])
    ensures ParseInt(PrintInt(n) + rest) == Some((n, rest))
  {
    hide ParseNat, PrintNat;
    if n < 0 {
      ParsePrintNat(-n, rest);
      var digits := PrintNat(-n);
      Regroup([MINUS], digits, rest);
      DropHead(MINUS, digits + rest);
    } else {
      ParsePrintNat(n, rest);
      assert IsDigit((PrintNat(n) + rest)[0]);
    }
  }

  lemma {:induction false} PrintParseNat(s: Bytes)
    requires ParseNat(s).Some?
    ensures var (n, rest) := ParseNat(s).value;
            n >= 0 && PrintNat(n) + rest == s
  {
    var k := DigitSpan(s);
    PrintNatValue(s[..k]);
    assert s == s[..k] + s[k..];
  }

  lemma {:induction false} PrintParseInt(s: Bytes)
    requires ParseInt(s).Some?
    ensures PrintInt(ParseInt(s).value.0) + ParseInt(s).value.1 == s
  {
    if s[0] == MINUS {
      PrintParseNat(s[1..]);
      var (n, rest) := ParseNat(s[1..]).value;
      Regroup([MINUS], PrintNat(n), rest);
      assert s == [MINUS] + s[1..];
    } else {
      PrintParseNat(s);
    }
  }

  // ----- Byte strings -----

  function PrintBytes(b: Bytes): (s: Bytes)
    ensures |s| > 0 && s[0] == QUOTE
  {
    [QUOTE] + Base64.Encode(b) + [QUOTE]
  }

  function QuoteIndex(s: Bytes): (n: nat)
    ensures n <= |s| && (forall i | 0 <= i < n :: s[i] != QUOTE)
    ensures n < |s| ==> s[n] == QUOTE
  {
    if |s| > 0 && s[0] != QUOTE then 1 + QuoteIndex(s[1..]) else 0
  }

  function ParseBytes(s: Bytes): (r: Option<(Bytes, Bytes)>)
    ensures r.Some? ==> |r.value.1| < |s|
  {
    if |s| == 0 || s[0] != QUOTE then None
    else
      var t := s[1..];
      var n := QuoteIndex(t);
      if n == |t| then None
      else
        match Base64.Decode(t[..n])
        case Some(b) => Some((b, t[n + 1..]))
        case None => None
  }

  lemma {:induction false} QuoteIndexIs(s: Bytes, n: nat)
    requires n < |s| && s[n] == QUOTE && forall i | 0 <= i < n :: s[i] != QUOTE
    ensures QuoteIndex(s) == n
  {
    if n > 0 {
      QuoteIndexIs(s[1..], n - 1);
    }
  }

  lemma {:induction false} ParsePrintBytes(b: Bytes, rest: Bytes)
    ensures ParseBytes(PrintBytes(b) + rest) == Some((b, rest))
  {
    var s := PrintBytes(b) + rest;
    var text := Base64.Encode(b);
    var t := s[1..];
    assert t == text + [QUOTE] + rest;
    var n := QuoteIndex(t);
    assert t[|text|] == QUOTE;
    Base64.NoQuotes(b);
    QuoteIndexIs(t, |text|);
    assert t[..n] == text && t[n + 1..] == rest;
    Base64.DecodeIffEncoded(text, b);
  }

  lemma {:induction false} Cut(s: Bytes, n: nat)
    requires n + 1 < |s| && s[0] == QUOTE && s[1..][n] == QUOTE
    ensures [QUOTE] + s[1..][..n] + [QUOTE] + s[1..][n + 1..] == s
  {
  }

  lemma {:induction false} PrintParseBytes(s: Bytes)
    requires ParseBytes(s).Some?
    ensures PrintBytes(ParseBytes(s).value.0) + ParseBytes(s).value.1 == s
  {
    var t := s[1..];
    var n := QuoteIndex(t);
    Base64.DecodeIffEncoded(t[..n], Base64.Decode(t[..n]).value);
    Cut(s, n);
  }

  // ----- Arrays -----

  function PrintTail(bids: seq<Bytes>): Bytes
    decreases |bids|
  {
    if |bids| == 0 then [CLOSE] else [COMMA] + PrintElements(bids)
  }

  function PrintElements(bids: seq<Bytes>): (s: Bytes)
    requires |bids| > 0
    ensures |s| > 0 && s[0] == QUOTE
    decreases |bids|, 0
  {
    PrintBytes(bids[0]) + PrintTail(bids[1..])
  }

  function PrintArray(bids: seq<Bytes>): Bytes {
    if |bids| == 0 then [OPEN, CLOSE] else [OPEN] + PrintElements(bids)
  }

  function ParseTail(s: Bytes): Option<(seq<Bytes>, Bytes)>
    decreases |s|
  {
    if |s| == 0 then None
    else if s[0] == CLOSE then Some(([], s[1..]))
    else if s[0] != COMMA then None
    else ParseElements(s[1..])
  }

  function ParseElements(s: Bytes): Option<(seq<Bytes>, Bytes)>
    decreases |s|
  {
    match ParseBytes(s)
    case None => None
    case Some((b, rest)) =>
      match ParseTail(rest)
      case None => None
      case Some((bs, rest')) => Some(([b] + bs, rest'))
  }

  function ParseArray(s: Bytes): Option<(seq<Bytes>, Bytes)> {
    if |s| == 0 || s[0] != OPEN then None
    else if |s| > 1 && s[1] == CLOSE then Some(([], s[2..]))
    else ParseElements(s[1..])
  }

  lemma {:induction false} ParsePrintTail(bids: seq<Bytes>, rest: Bytes)
    ensures ParseTail(PrintTail(bids) + rest) == Some((bids, rest))
    decreases |bids|
  {
    hide ParseElements, PrintElements;
    if |bids| == 0 {
      DropHead(CLOSE, rest);
    } else {
      ParsePrintElements(bids, rest);
      Regroup([COMMA], PrintElements(bids), rest);
      DropHead(COMMA, PrintElements(bids) + rest);
    }
  }

  lemma {:induction false} ParsePrintElements(bids: seq<Bytes>, rest: Bytes)
    requires |bids| > 0
    ensures ParseElements(PrintElements(bids) + rest) == Some((bids, rest))
    decreases |bids|, 0
  {
    hide ParseBytes, PrintBytes, ParseTail, PrintTail;
    var tail := PrintTail(bids[1..]);
    Regroup(PrintBytes(bids[0]), tail, rest);
    ParsePrintBytes(bids[0], tail + rest);
    ParsePrintTail(bids[1..], rest);
    assert bids == [bids[0]] + bids[1..];
  }

  lemma {:induction false} ParsePrintArray(bids: seq<Bytes>, rest: Bytes)
    ensures ParseArray(PrintArray(bids) + rest) == Some((bids, rest))
  {
    if |bids| == 0 {
      assert ([OPEN, CLOSE] + rest)[2..] == rest;
    } else {
      ParsePrintElements(bids, rest);
      var elements := PrintElements(bids);
      Regroup([OPEN], elements, rest);
      DropHead(OPEN, elements + rest);
    }
  }

  lemma {:induction false} PrintParseTail(s: Bytes)
    requires ParseTail(s).Some?
    ensures PrintTail(ParseTail(s).value.0) + ParseTail(s).value.1 == s
    decreases |s|
  {
    if s[0] != CLOSE {
      PrintParseElements(s[1..]);
      var (bs, rest) := ParseElements(s[1..]).value;
      Regroup([COMMA], PrintElements(bs), rest);
      assert s == [COMMA] + s[1..];
    }
  }

  lemma {:induction false} PrintParseElements(s: Bytes)
    requires ParseElements(s).Some?
    ensures var (bs, rest) := ParseElements(s).value;
            |bs| > 0 && PrintElements(bs) + rest == s
    decreases |s|
  {
    PrintParseBytes(s);
    var (b, t) := ParseBytes(s).value;
    PrintParseTail(t);
    var (bs, rest) := ParseTail(t).value;
    assert ([b] + bs)[1..] == bs;
    Regroup(PrintBytes(b), PrintTail(bs), rest);
  }

  lemma {:induction false} PrintParseArray(s: Bytes)
    requires ParseArray(s).Some?
    ensures PrintArray(ParseArray(s).value.0) + ParseArray(s).value.1 == s
  {
    if !(|s| > 1 && s[1] == CLOSE) {
      PrintParseElements(s[1..]);
      var (bs, rest) := ParseArray(s).value;
      Regroup([OPEN], PrintElements(bs), rest);
      assert s == [OPEN] + s[1..];
    }
  }

  // ----- Objects -----

  function Print(r: Record): Bytes {
    HEIGHT_KEY + PrintInt(r.height) + BIDS_KEY + PrintArray(r.bids) + [END]
  }

  /** Succeeds on exactly the bytes that `Print` produces. */
  function Parse(s: Bytes): Option<Record> {
    if !(HEIGHT_KEY <= s) then None
    else
      match ParseInt(s[|HEIGHT_KEY|..])
      case None => None
      case Some((height, t)) =>
        if !(-0x8000_0000_0000_0000 <= height < 0x8000_0000_0000_0000) || !(BIDS_KEY <= t) then None
        else
          match ParseArray(t[|BIDS_KEY|..])
          case None => None
          case Some((bids, u)) => if u == [END] then Some(Record(height, bids)) else None
  }

  lemma {:induction false} ParsePrint(r: Record)
    ensures Parse(Print(r)) == Some(r)
  {
    var digits, listed := PrintInt(r.height), PrintArray(r.bids);
    Split(HEIGHT_KEY, digits, BIDS_KEY, listed, [END]);
    ParsePrintInt(r.height, BIDS_KEY + (listed + [END]));
    ParsePrintArray(r.bids, [END]);
  }

  lemma {:induction false} PrintParse(s: Bytes)
    requires Parse(s).Some?
    ensures Print(Parse(s).value) == s
  {
    var after := s[|HEIGHT_KEY|..];
    PrintParseInt(after);
    var (height, t) := ParseInt(after).value;
    var listed := t[|BIDS_KEY|..];
    PrintParseArray(listed);
    var bids := ParseArray(listed).value.0;
    Join(HEIGHT_KEY, PrintInt(height), BIDS_KEY, PrintArray(bids), [END], s, t);
  }

  /** Parsing accepts a byte string exactly when it is the printed form of the result. */
  lemma {:induction false} ParseIffPrinted(s: Bytes, r: Record)
    ensures Parse(s) == Some(r) <==> s == Print(r)
  {
    ParsePrint(r);
    if Parse(s) == Some(r) {
      PrintParse(s);
    }
  }

  // ----- The text itself -----

  /** The character codes of a text. */
  function Codes(text: string): seq<int> {
    seq(|text|, i requires 0 <= i < |text| => text[i] as int)
  }

  function Pow10(k: nat): nat
    ensures Pow10(k) > 0
  {
    if k == 0 then 1 else 10 * Pow10(k - 1)
  }

  lemma {:induction false} DivideTwice(n: nat, p: nat)
    requires p > 0
    ensures n / 10 / p == n / (10 * p)
  {
    var q, b := n / 10 / p, n / 10 % p;
    assert n / 10 == p * q + b;
    assert n == (10 * p) * q + (10 * b + n % 10);
    QuotientIs(n, 10 * p, q);
  }

  lemma {:induction false} QuotientIs(n: nat, d: nat, q: nat)
    requires d > 0 && d * q <= n < d * q + d
    ensures n / d == q
  {
    var r := n / d;
    assert n == d * r + n % d;
    MulApart(d, q, r);
    MulApart(d, r, q);
  }

  lemma {:induction false} MulApart(d: nat, low: nat, high: nat)
    ensures low < high ==> d * low + d <= d * high
  {
    if low + 1 < high {
      MulApart(d, low, high - 1);
    }
  }

  lemma {:induction false} LongNat(n: nat)
    ensures |PrintNat(n)| > 1 <==> n >= 10
  {
  }

  /** The k-th character from the right is the digit of n at ten to the k. */
  lemma {:induction false} DecimalDigit(n: nat, k: nat)
    requires k < |PrintNat(n)|
    ensures PrintNat(n)[|PrintNat(n)| - 1 - k] == '0' as int + n / Pow10(k) % 10
    decreases k
  {
    if k > 0 {
      LongNat(n);
      DecimalDigit(n / 10, k - 1);
      DivideTwice(n, Pow10(k - 1));
    }
  }

  /** There are as many characters as n has digits. */
  lemma {:induction false} DecimalLength(n: nat)
    ensures n < Pow10(|PrintNat(n)|)
    ensures n > 0 ==> Pow10(|PrintNat(n)| - 1) <= n
    ensures n == 0 ==> |PrintNat(n)| == 1
  {
    if n >= 10 {
      DecimalLength(n / 10);
    } else {
      assert Pow10(1) == 10 * Pow10(0);
    }
  }

  /** A minus sign if negative, then the digits. */
  function DecimalOf(n: int): seq<int> {
    if n < 0 then Codes("-") + PrintNat(-n) else PrintNat(n)
  }

  /** The parts with commas in between. */
  function Joined(parts: seq<Bytes>): seq<int> {
    if |parts| == 0 then []
    else if |parts| == 1 then parts[0]
    else Joined(parts[..|parts| - 1]) + Codes(",") + parts[|parts| - 1]
  }

  function Quoted(b: Bytes): seq<int> {
    Codes("\"") + Base64.Encode(b) + Codes("\"")
  }

  function QuotedAll(bids: seq<Bytes>): seq<Bytes> {
    seq(|bids|, i requires 0 <= i < |bids| => PrintBytes(bids[i]))
  }

  lemma {:induction false} PrintedIsQuoted(b: Bytes)
    ensures PrintBytes(b) == Quoted(b)
  {
    assert Codes("\"") == [34];
  }

  lemma {:induction false} JoinedFront(first: Bytes, rest: seq<Bytes>)
    requires |rest| > 0
    ensures Joined([first] + rest) == first + Codes(",") + Joined(rest)
  {
    var parts := [first] + rest;
    assert parts[|parts| - 1] == rest[|rest| - 1];
    assert parts[..|parts| - 1] == [first] + rest[..|rest| - 1];
    if |rest| > 1 {
      JoinedFront(first, rest[..|rest| - 1]);
    }
  }

  lemma {:induction false} ElementsAreJoined(bids: seq<Bytes>)
    requires |bids| > 0
    ensures PrintElements(bids) == Joined(QuotedAll(bids)) + Codes("]")
    decreases |bids|
  {
    hide PrintBytes;
    assert Codes("]") == [CLOSE] && Codes(",") == [COMMA];
    if |bids| == 1 {
      assert QuotedAll(bids) == [PrintBytes(bids[0])];
    } else {
      var rest := bids[1..];
      ElementsAreJoined(rest);
      assert QuotedAll(bids) == [PrintBytes(bids[0])] + QuotedAll(rest);
      JoinedFront(PrintBytes(bids[0]), QuotedAll(rest));
      var first, joined: seq<int> := PrintBytes(bids[0]), Joined(QuotedAll(rest));
      assert first + (Codes(",") + (joined + Codes("]"))) == (first + Codes(",") + joined) + Codes("]");
    }
  }

  /** The printed form as text: the two keys, the height in decimal with a minus sign if it is
      negative, and the bids in base64, quoted and separated by commas. */
  lemma {:induction false} PrintedText(r: Record)
    ensures |QuotedAll(r.bids)| == |r.bids|
    ensures forall i | 0 <= i < |r.bids| :: QuotedAll(r.bids)[i] == Quoted(r.bids[i])
    ensures Print(r) ==
            Codes("{\"Height\":")
            + DecimalOf(r.height)
            + Codes(",\"Bids\":[") + Joined(QuotedAll(r.bids)) + Codes("]}")
  {
    hide PrintNat, PrintBytes, PrintElements, Joined, QuotedAll, Quoted;
    QuotedAllIs(r.bids);
    KeysAsText();
    var bids: seq<int> := PrintArray(r.bids);
    assert bids == Codes("[") + Joined(QuotedAll(r.bids)) + Codes("]") by {
      ArrayAsText(r.bids);
    }
    TextTail(PrintInt(r.height), Joined(QuotedAll(r.bids)));
  }

  lemma {:induction false} QuotedAllIs(bids: seq<Bytes>)
    ensures |QuotedAll(bids)| == |bids|
    ensures forall i | 0 <= i < |bids| :: QuotedAll(bids)[i] == Quoted(bids[i])
  {
    forall i | 0 <= i < |bids| ensures QuotedAll(bids)[i] == Quoted(bids[i]) {
      PrintedIsQuoted(bids[i]);
    }
  }

  lemma {:induction false} KeysAsText()
    ensures Codes("{\"Height\":") == HEIGHT_KEY
    ensures Codes(",\"Bids\":[") == BIDS_KEY + Codes("[")
    ensures Codes("]}") == Codes("]") + [END]
    ensures Codes("-") == [MINUS]
  {
  }

  lemma {:induction false} ArrayAsText(bids: seq<Bytes>)
    ensures PrintArray(bids) == Codes("[") + Joined(QuotedAll(bids)) + Codes("]")
  {
    hide PrintElements, PrintBytes;
    assert Codes("[") == [OPEN] && Codes("]") == [CLOSE];
    if |bids| == 0 {
      assert QuotedAll(bids) == [];
    } else {
      ElementsAreJoined(bids);
    }
  }

  lemma {:induction false} TextTail(height: seq<int>, joined: seq<int>)
    ensures HEIGHT_KEY + height + BIDS_KEY + (Codes("[") + joined + Codes("]")) + [END] ==
            HEIGHT_KEY + height + (BIDS_KEY + Codes("[")) + joined + (Codes("]") + [END])
  {
  }

  // ----- The assumptions of the other theorems -----

  /** The codec with this printer and reader. */
  function Standard(c: Codec): Codec {
    c.(printRecord := r => Print(r), readRecord := s => Parse(s))
  }

  /** It reads its records back, so every theorem about a lawful codec holds of it. */
  lemma {:induction false} StandardIsLawful(c: Codec)
    ensures Standard(c).ReadsRecords()
    ensures c.Lawful() ==> Standard(c).Lawful()
  {
    forall r: Record ensures Parse(Print(r)) == Some(r) {
      ParsePrint(r);
    }
    assert Parse([]) == None;
  }
}
