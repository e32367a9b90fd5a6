/** The sending side of DNSMsg (DNSMsgClient.py). A message is cut into
    chunks sized against a 250-character ceiling; the whole query name is at
    most 253 characters (HostnameFits), which is within the 255-octet limit of
    section 2.3.4 of RFC 1035 when the sender and the domain are ASCII. Each
    chunk is UTF-8 encoded, written in Base32 or Base64, split into labels of
    at most 63 characters and put between a text header and the receiving
    domain. The names are queried for TXT records one after another, and
    sending stops at the first query that is not acknowledged with "OK". */
module DNSMsgClient {
  import opened Text
  import Utf8
  import Base32
  import Base64

  /** The --encoding argument: "base32", or "base64" (the default). */
  datatype Encoding = B32 | B64

  /** The command-line arguments; the sender defaults to the host's MAC
      address in hex, which is left to the caller here. */
  datatype Args = Args(message: string, encoding: Encoding, domain: string, sender: string)

  const MAX_QUERY_LEN := 250
  /** Six hex digits of sequence number, a '-', six of count and a '.'. */
  const MAX_HEADER2_LEN := 14
  const MAX_LABEL_LEN := 63

  // ---------------------------------------------------------------------
  // Header and budget
  // ---------------------------------------------------------------------

  function Marker(e: Encoding): string
  {
    if e == B32 then "2-" else "4-"
  }

  /** The first part of every query name: the encoding marker, the sender,
      and the UTC time of day HHMMSS, read as a decimal number, in hex. */
  function Header1(e: Encoding, sender: string, timestamp: nat): string
  {
    Marker(e) + sender + "-" + Hex(timestamp) + "-"
  }

  /** The per-query header: header1, then the sequence number and the count
      of queries as format(n, '06x'), joined by '-' and ended by '.'. */
  function Header(header1: string, k: nat, n: nat): string
  {
    header1 + Hex6(k) + "-" + Hex6(n) + "."
  }

  /** int(x) of a float x: truncation toward zero. */
  function TruncDiv(a: int, b: nat): int
    requires b > 0
  {
    if a >= 0 then a / b else -((-a) / b)
  }

  /** What the 250-character ceiling leaves for encoded text once the longest
      header and the domain with its separating dot are taken off. */
  function Available(header1: string, domain: string): int
  {
    MAX_QUERY_LEN - (|header1| + MAX_HEADER2_LEN) - (|domain| + 1)
  }

  /** The number of message characters per query: the available length
      shrunk by the encoding's expansion (5/8 for Base32, 6/8 for Base64) and
      four characters for label separators. It may be zero or negative. */
  function ChunkSize(e: Encoding, header1: string, domain: string): int
  {
    var a := Available(header1, domain);
    (if e == B32 then TruncDiv(a * 5, 8) else TruncDiv(a * 6, 8)) - 4
  }

  /** math.ceil(len / c) for a chunk size that is not zero. */
  function QueryCount(len: nat, c: int): int
    requires c != 0
  {
    if c > 0 then CeilDiv(len, c) else -(len / -c)
  }

  // ---------------------------------------------------------------------
  // Chunks, labels and the query name
  // ---------------------------------------------------------------------

  /** message[(k-1)*c : (k-1)*c + c], the text of the k-th query. */
  function Chunk(m: string, c: int, k: int): string
  {
    Slice(m, (k - 1) * c, (k - 1) * c + c)
  }

  /** The chunks of queries 1 .. n, in the order they are sent. */
  function Chunks(m: string, c: int, n: nat): (r: seq<string>)
    ensures |r| == n && forall i :: 0 <= i < n ==> r[i] == Chunk(m, c, i + 1)
  {
    seq(n, i => Chunk(m, c, i + 1))
  }

  /** [s[i:i+c] for i in range(0, len(s), c)]. */
  function Pieces(s: string, c: nat): (r: seq<string>)
    requires c > 0
    ensures |r| == CeilDiv(|s|, c)
  {
    seq(CeilDiv(|s|, c), i => Slice(s, i * c, i * c + c))
  }

  function Labels(s: string): seq<string>
  {
    Pieces(s, MAX_LABEL_LEN)
  }

  /** The UTF-8 bytes of a chunk, written in the chosen encoding. */
  function EncodeChunk(e: Encoding, part: string): string
  {
    var bytes := Utf8.Encode(part);
    if e == B32 then Base32.Encode(bytes) else Base64.Encode(bytes)
  }

  /** The encoded chunk as labels, each followed by a dot. */
  function Payload(e: Encoding, part: string): string
  {
    DotAfterEach(Labels(EncodeChunk(e, part)))
  }

  function Budget(args: Args, timestamp: nat): int
  {
    ChunkSize(args.encoding, Header1(args.encoding, args.sender, timestamp), args.domain)
  }

  /** The name queried for the k-th of n chunks (without the final root dot). */
  function Hostname(args: Args, timestamp: nat, k: nat, n: nat): string
  {
    var header1 := Header1(args.encoding, args.sender, timestamp);
    Header(header1, k, n) + Payload(args.encoding, Chunk(args.message, Budget(args, timestamp), k)) + args.domain
  }

  /** The names of queries 1 .. count out of n, in the order they are sent. */
  function Hostnames(args: Args, timestamp: nat, count: nat, n: nat): (r: seq<string>)
    ensures |r| == count
  {
    seq(count, j requires 0 <= j < count => Hostname(args, timestamp, j + 1, n))
  }

  // ---------------------------------------------------------------------
  // The reply check
  // ---------------------------------------------------------------------

  /** What a TXT lookup gives: an exception, or the answers rendered by
      str(), which puts the text between double quotes. */
  datatype Response = Raised | Answers(texts: seq<string>)

  /** query(hostname): the first answer's characters [1:3] are "OK"; an
      exception, including a missing first answer, counts as a failure. */
  predicate Acknowledged(r: Response)
  {
    r.Answers? && |r.texts| > 0 && Slice(r.texts[0], 1, 3) == "OK"
  }

  // ---------------------------------------------------------------------
  // Sending
  // ---------------------------------------------------------------------

  /** How main ends: all queries sent ("Sent n of n queries"), stopped by an
      unacknowledged query ("ERROR: Sent k of n queries", exit status -1),
      math.ceil dividing by a zero chunk size, or the final report reading a
      sequence number that no iteration bound because there were no queries. */
  datatype Outcome =
    | Completed(sent: nat, total: nat)
    | Stopped(sent: nat, total: nat)
    | ZeroDivisionError
    | UnboundLocalError

  /** main: computes the chunk size and the number of queries, then sends
      them. Returns the names queried, in order, and how the run ended. */
  method SendMessage(args: Args, timestamp: nat, resolve: string -> Response)
    returns (queried: seq<string>, outcome: Outcome)
    ensures Budget(args, timestamp) == 0 ==> queried == [] && outcome == ZeroDivisionError
    ensures Budget(args, timestamp) != 0 && QueryCount(|args.message|, Budget(args, timestamp)) <= 0 ==>
      queried == [] && outcome == UnboundLocalError
    ensures Budget(args, timestamp) != 0 && QueryCount(|args.message|, Budget(args, timestamp)) > 0 ==>
      Sent(args, timestamp, QueryCount(|args.message|, Budget(args, timestamp)), resolve, queried, outcome)
  {
    var header1 := Header1(args.encoding, args.sender, timestamp);
    var c := ChunkSize(args.encoding, header1, args.domain);
    if c == 0 {
      return [], ZeroDivisionError;
    }
    var n := QueryCount(|args.message|, c);
    if n <= 0 {
      return [], UnboundLocalError;
    }
    queried, outcome := SendQueries(args, timestamp, header1, c, n, resolve);
  }

  /** The loop of main that appends each label and a dot to the payload. */
  method JoinLabels(labels: seq<string>) returns (payload: string)
    ensures payload == DotAfterEach(labels)
  {
    payload := "";
    var i := 0;
    while i < |labels|
      invariant 0 <= i <= |labels|
      invariant payload == DotAfterEach(labels[..i])
    {
      DotStep(labels, i);
      payload := payload + labels[i] + ".";
      i := i + 1;
    }
    assert labels[..|labels|] == labels;
  }

  /** What the sending loop achieves: the names of chunks 1 .. |queried| of
      n were queried in order, all but the last acknowledged; the run
      completed when the last one, the n-th, was acknowledged, and stopped
      with |queried| - 1 sent otherwise. */
  ghost predicate Sent(args: Args, timestamp: nat, n: nat, resolve: string -> Response,
                       queried: seq<string>, outcome: Outcome)
  {
    && 1 <= |queried| <= n
    && queried == Hostnames(args, timestamp, |queried|, n)
    && (forall j :: 0 <= j < |queried| - 1 ==> Acknowledged(resolve(queried[j] + ".")))
    && (if Acknowledged(resolve(queried[|queried| - 1] + "."))
        then |queried| == n && outcome == Completed(n, n)
        else outcome == Stopped(|queried| - 1, n))
  }

  /** The loop of main over k = 1 .. n: builds the k-th name, queries it and
      stops at the first reply that is not an acknowledgment. */
  method SendQueries(args: Args, timestamp: nat, header1: string, c: int, n: int, resolve: string -> Response)
    returns (queried: seq<string>, outcome: Outcome)
    requires header1 == Header1(args.encoding, args.sender, timestamp)
    requires c == Budget(args, timestamp) && n >= 1
    ensures Sent(args, timestamp, n, resolve, queried, outcome)
  {
    queried := [];
    var k := 1;
    while k <= n
      invariant 1 <= k <= n + 1
      invariant queried == Hostnames(args, timestamp, k - 1, n)
      invariant forall j :: 0 <= j < |queried| ==> Acknowledged(resolve(queried[j] + "."))
    {
      var header := header1 + Hex6(k) + "-" + Hex6(n) + ".";
      var strpos := (k - 1) * c;
      var msgpart := Slice(args.message, strpos, strpos + c);
      var encoded := EncodeChunk(args.encoding, msgpart);
      var labels := Pieces(encoded, MAX_LABEL_LEN);
      var payload := JoinLabels(labels);
      QueryName(args, timestamp, k, n);
      payload := header + payload + args.domain;
      HostnamesNext(args, timestamp, k - 1, n);
      ghost var earlier := queried;
      queried := queried + [payload];
      if !Acknowledged(resolve(payload + ".")) {
        StopsAt(args, timestamp, n, resolve, earlier, payload);
        return queried, Stopped(k - 1, n);
      }
      AckStep(earlier, payload, resolve);
      k := k + 1;
    }
    CompletesAt(args, timestamp, n, resolve, queried);
    outcome := Completed(n, n);
  }

  lemma AckStep(queried: seq<string>, x: string, resolve: string -> Response)
    requires forall j :: 0 <= j < |queried| ==> Acknowledged(resolve(queried[j] + "."))
    requires Acknowledged(resolve(x + "."))
    ensures forall j :: 0 <= j < |queried + [x]| ==> Acknowledged(resolve((queried + [x])[j] + "."))
  {
  }

  /** An unacknowledged query ends the run as Stopped. */
  lemma StopsAt(args: Args, timestamp: nat, n: nat, resolve: string -> Response, queried: seq<string>, x: string)
    requires |queried| < n && queried + [x] == Hostnames(args, timestamp, |queried| + 1, n)
    requires forall j :: 0 <= j < |queried| ==> Acknowledged(resolve(queried[j] + "."))
    requires !Acknowledged(resolve(x + "."))
    ensures Sent(args, timestamp, n, resolve, queried + [x], Stopped(|queried|, n))
  {
    var q := queried + [x];
    assert forall j :: 0 <= j < |q| - 1 ==> q[j] == queried[j];
  }

  /** Acknowledged queries 1 .. n end the run as Completed. */
  lemma CompletesAt(args: Args, timestamp: nat, n: nat, resolve: string -> Response, queried: seq<string>)
    requires n >= 1 && queried == Hostnames(args, timestamp, n, n)
    requires forall j :: 0 <= j < |queried| ==> Acknowledged(resolve(queried[j] + "."))
    ensures Sent(args, timestamp, n, resolve, queried, Completed(n, n))
  {
  }

  // ---------------------------------------------------------------------
  // Properties
  // ---------------------------------------------------------------------

  lemma DotStep(labels: seq<string>, i: nat)
    requires i < |labels|
    ensures DotAfterEach(labels[..i + 1]) == DotAfterEach(labels[..i]) + labels[i] + "."
  {
    assert labels[..i + 1][..i] == labels[..i];
  }

  /** The name main assembles for the k-th query is Hostname. */
  lemma QueryName(args: Args, timestamp: nat, k: nat, n: nat)
    ensures var c := Budget(args, timestamp);
      var part := Slice(args.message, (k - 1) * c, (k - 1) * c + c);
      Header1(args.encoding, args.sender, timestamp) + Hex6(k) + "-" + Hex6(n) + "."
        + DotAfterEach(Pieces(EncodeChunk(args.encoding, part), MAX_LABEL_LEN)) + args.domain
      == Hostname(args, timestamp, k, n)
  {
  }

  lemma HostnamesNext(args: Args, timestamp: nat, count: nat, n: nat)
    ensures Hostnames(args, timestamp, count + 1, n)
      == Hostnames(args, timestamp, count, n) + [Hostname(args, timestamp, count + 1, n)]
  {
  }

  /** The marker is "2-" exactly for Base32, and the header reads back into
      its fields when split at '-': marker digit, sender, timestamp, sequence
      number and count, each field a hex numeral of the value it carries. */
  lemma HeaderFields(e: Encoding, sender: string, timestamp: nat, k: nat, n: nat)
    requires '-' !in sender
    requires k < 0x100_0000 && n < 0x100_0000
    ensures var h := Header(Header1(e, sender, timestamp), k, n);
      && |h| == |sender| + |Hex(timestamp)| + 18
      && h[|h| - 1] == '.'
      && Split(h[..|h| - 1], '-') == [if e == B32 then "2" else "4", sender, Hex(timestamp), Hex6(k), Hex6(n)]
      && NumeralValue(Hex(timestamp), 16) == timestamp
      && NumeralValue(Hex6(k), 16) == k && NumeralValue(Hex6(n), 16) == n
  {
    var d := if e == B32 then "2" else "4";
    var t := Hex(timestamp);
    Hex6Fields(k);
    Hex6Fields(n);
    NumeralRoundTrip(timestamp, 16);
    HeaderJoined(e, sender, timestamp, k, n);
    SplitJoin([d, sender, t, Hex6(k), Hex6(n)], '-');
  }

  /** The header is its five fields joined by '-', then a '.'. */
  lemma HeaderJoined(e: Encoding, sender: string, timestamp: nat, k: nat, n: nat)
    ensures var h := Header(Header1(e, sender, timestamp), k, n);
      var j := Join([if e == B32 then "2" else "4", sender, Hex(timestamp), Hex6(k), Hex6(n)], '-');
      h == j + "." && h[..|h| - 1] == j
  {
    var d := if e == B32 then "2" else "4";
    JoinFive(d, sender, Hex(timestamp), Hex6(k), Hex6(n), '-');
    assert Marker(e) == d + "-";
  }

  lemma TruncDivMono(a: int, b: int, d: nat)
    requires d > 0 && a <= b
    ensures TruncDiv(a, d) <= TruncDiv(b, d)
  {
    if a < 0 && b >= 0 {
    } else if a < 0 {
      DivMono(-b, -a, d);
    } else {
      DivMono(a, b, d);
    }
  }

  lemma DivMono(a: nat, b: nat, d: nat)
    requires d > 0 && a <= b
    ensures a / d <= b / d
  {
    DivMod(a, d);
    DivMod(b, d);
    if a / d > b / d {
      MulMono(d, b / d + 1, a / d);
    }
  }

  /** The chunk size depends only on the encoding and the lengths of header1
      and of the domain, and it does not grow as either gets longer. */
  lemma ChunkSizeShrinks(e: Encoding, h: string, d: string, h': string, d': string)
    requires |h| <= |h'| && |d| <= |d'|
    ensures ChunkSize(e, h', d') <= ChunkSize(e, h, d)
    ensures |h| == |h'| && |d| == |d'| ==> ChunkSize(e, h', d') == ChunkSize(e, h, d)
  {
    var a, a' := Available(h, d), Available(h', d');
    if e == B32 {
      TruncDivMono(a' * 5, a * 5, 8);
    } else {
      TruncDivMono(a' * 6, a * 6, 8);
    }
  }

  /** ceil(a / c) is the least count k with k * c >= a. */
  lemma CeilDivBelow(a: nat, c: nat, k: nat)
    requires c > 0
    ensures k < CeilDiv(a, c) <==> k * c < a
  {
    var q := CeilDiv(a, c);
    DivMod(a + c - 1, c);
    if k < q {
      MulMono(c, k + 1, q);
    } else {
      MulMono(c, q, k);
    }
  }

  /** The number of queries is the least n with n chunks covering the
      message; a negative chunk size gives no queries at all. */
  lemma QueryCountIsCeiling(len: nat, c: int)
    requires c != 0
    ensures c > 0 ==> (QueryCount(len, c) - 1) * c < len <= QueryCount(len, c) * c
    ensures c < 0 ==> QueryCount(len, c) <= 0
    ensures QueryCount(len, c) > 0 <==> c > 0 && len > 0
  {
    if c > 0 {
      var q := QueryCount(len, c);
      CeilDivBelow(len, c, q);
      if q > 0 {
        CeilDivBelow(len, c, q - 1);
      } else {
        DivMod(len + c - 1, c);
      }
    }
  }

  lemma PieceAt(s: string, c: nat, i: nat)
    requires c > 0 && i < CeilDiv(|s|, c)
    ensures i * c < |s|
    ensures Pieces(s, c)[i] == s[i * c .. Min(i * c + c, |s|)]
  {
    CeilDivBelow(|s|, c, i);
    SliceFrom(s, i * c, i * c + c);
  }

  lemma Rejoin(s: string, lo: nat, hi: nat)
    requires lo <= hi <= |s|
    ensures s[..lo] + s[lo..hi] == s[..hi]
  {
  }

  lemma {:induction false} PiecesPrefix(s: string, c: nat, j: nat)
    requires c > 0 && j <= CeilDiv(|s|, c)
    ensures Concat(Pieces(s, c)[..j]) == s[..Min(j * c, |s|)]
  {
    if j > 0 {
      PiecesStep(s, c, j);
      PiecesPrefix(s, c, j - 1);
      Rejoin(s, (j - 1) * c, Min(j * c, |s|));
    }
  }

  /** The first j pieces are the first j - 1 followed by the j-th, which
      starts where the others end. */
  lemma PiecesStep(s: string, c: nat, j: nat)
    requires c > 0 && 1 <= j <= CeilDiv(|s|, c)
    ensures 0 <= (j - 1) * c < |s| && (j - 1) * c <= Min(j * c, |s|)
    ensures Min((j - 1) * c, |s|) == (j - 1) * c
    ensures Concat(Pieces(s, c)[..j]) == Concat(Pieces(s, c)[..j - 1]) + s[(j - 1) * c .. Min(j * c, |s|)]
  {
    var ps := Pieces(s, c);
    assert ps[..j][..j - 1] == ps[..j - 1];
    MulStep(c, j);
    PieceAt(s, c, j - 1);
  }

  lemma MulStep(c: nat, j: nat)
    requires j >= 1
    ensures (j - 1) * c + c == j * c && 0 <= (j - 1) * c
  {
    MulMono(c, 0, j - 1);
  }

  /** Cutting a text into pieces of c: there are ceil(len / c) pieces, each
      non-empty and at most c long, all but the last exactly c long, and
      together they are the text. */
  lemma PiecesCover(s: string, c: nat)
    requires c > 0
    ensures |Pieces(s, c)| == CeilDiv(|s|, c)
    ensures forall i :: 0 <= i < |Pieces(s, c)| ==> 1 <= |Pieces(s, c)[i]| <= c
    ensures forall i :: 0 <= i < |Pieces(s, c)| - 1 ==> |Pieces(s, c)[i]| == c
    ensures Concat(Pieces(s, c)) == s
  {
    var ps := Pieces(s, c);
    forall i | 0 <= i < |ps| ensures 1 <= |ps[i]| <= c && (i < |ps| - 1 ==> |ps[i]| == c) {
      PieceLength(s, c, i);
    }
    PiecesPrefix(s, c, |ps|);
    CeilDivBelow(|s|, c, |ps|);
    assert ps[..|ps|] == ps;
  }

  /** Each piece is 1 .. c characters long, and every piece but the last is c. */
  lemma PieceLength(s: string, c: nat, i: nat)
    requires c > 0 && i < CeilDiv(|s|, c)
    ensures 1 <= |Pieces(s, c)[i]| <= c
    ensures i < CeilDiv(|s|, c) - 1 ==> |Pieces(s, c)[i]| == c
  {
    PieceAt(s, c, i);
    if i < CeilDiv(|s|, c) - 1 {
      CeilDivBelow(|s|, c, i + 1);
      MulStep(c, i + 1);
    }
  }

  /** The chunks of queries 1 .. numMessages: each non-empty and at most c
      characters, all but the last exactly c, and together the message. */
  lemma ChunksCover(m: string, c: int)
    requires c > 0
    ensures var n := QueryCount(|m|, c);
      && (forall k :: 1 <= k <= n ==> 1 <= |Chunk(m, c, k)| <= c)
      && (forall k :: 1 <= k < n ==> |Chunk(m, c, k)| == c)
      && Concat(Chunks(m, c, n)) == m
  {
    var n := QueryCount(|m|, c);
    assert Chunks(m, c, n) == Pieces(m, c);
    PiecesCover(m, c);
    forall k | 1 <= k <= n ensures Chunk(m, c, k) == Pieces(m, c)[k - 1] {
    }
  }

  /** The labels of an encoded chunk: ceil(len / 63) of them, each non-empty
      and at most 63 characters, and joined they are the chunk again. */
  lemma LabelsCover(s: string)
    ensures |Labels(s)| == CeilDiv(|s|, MAX_LABEL_LEN)
    ensures forall i :: 0 <= i < |Labels(s)| ==> 1 <= |Labels(s)[i]| <= MAX_LABEL_LEN
    ensures Concat(Labels(s)) == s
  {
    PiecesCover(s, MAX_LABEL_LEN);
  }

  /** An encoded chunk is 8 * ceil(n / 5) characters in Base32 and
      4 * ceil(n / 3) in Base64, for n bytes of UTF-8. */
  lemma EncodedChunkLength(e: Encoding, part: string)
    ensures var n := |Utf8.Encode(part)|;
      |EncodeChunk(e, part)| == if e == B32 then 8 * CeilDiv(n, 5) else 4 * CeilDiv(n, 3)
  {
    if e == B32 {
      Base32.EncodedLength(Utf8.Encode(part));
    } else {
      Base64.EncodedLength(Utf8.Encode(part));
    }
  }

  /** The labels of a query carry the chunk recoverably: deleting their dots
      and decoding in the same encoding gives back the chunk's UTF-8, which
      decodes to the chunk. */
  lemma PayloadDecodes(e: Encoding, part: string)
    ensures var text := Substitute(Payload(e, part), '.', "");
      && text == EncodeChunk(e, part)
      && (if e == B32 then Base32.Decode(text) else Base64.Decode(text)) == Some(Utf8.Encode(part))
      && Utf8.Decode(Utf8.Encode(part)) == Some(part)
  {
    var bytes := Utf8.Encode(part);
    var enc := EncodeChunk(e, part);
    var ls := Labels(enc);
    if e == B32 {
      Base32.RoundTrip(bytes);
    } else {
      Base64.RoundTrip(bytes);
    }
    NoDotInChunk(e, part);
    forall i | 0 <= i < |ls| ensures '.' !in ls[i] {
      assert forall x :: x in ls[i] ==> x in enc;
    }
    RemoveDots(ls);
    LabelsCover(enc);
    Utf8.EncodeDecode(part);
  }

  /** Neither alphabet nor the padding holds '.', so an encoded chunk has none. */
  lemma NoDotInChunk(e: Encoding, part: string)
    ensures '.' !in EncodeChunk(e, part)
  {
    var bytes := Utf8.Encode(part);
    var enc := EncodeChunk(e, part);
    if e == B32 {
      Base32.EncodedSymbols(bytes);
    } else {
      Base64.EncodedSymbols(bytes);
    }
    forall i | 0 <= i < |enc| ensures enc[i] != '.' {
    }
  }

  lemma Base32Fits(a: int, len: nat)
    requires len + 4 <= TruncDiv(a * 5, 8)
    ensures 8 * CeilDiv(len, 5) <= a
  {
    var f := TruncDiv(a * 5, 8);
    DivMod(a * 5, 8);
    DivMod(len + 4, 5);
  }

  lemma Base64Fits(a: int, len: nat)
    requires len + 4 <= TruncDiv(a * 6, 8)
    ensures 4 * CeilDiv(len, 3) <= a
  {
    DivMod(a * 6, 8);
    DivMod(len + 2, 3);
  }

  /** A chunk of an ASCII message is at most c bytes once UTF-8 encoded. */
  lemma ChunkBytes(m: string, c: int, k: int)
    requires IsAscii(m) && c > 0 && k >= 1
    ensures |Utf8.Encode(Chunk(m, c, k))| <= c
  {
    var part := Chunk(m, c, k);
    assert IsAscii(part) by {
      forall i | 0 <= i < |part| ensures part[i] as int < 128 {
        assert part[i] in m;
      }
    }
    Utf8.AsciiEncode(part);
    MulMono(c, 0, k - 1);
    SliceFrom(m, (k - 1) * c, (k - 1) * c + c);
  }

  /** Every query name ends with the domain and, for an ASCII message, a
      positive chunk size and sequence numbers below 16^6, is at most 253
      characters. Its data labels are 1..63 characters each. The bound is in
      characters: sender and domain may hold characters that take more than
      one octet on the wire. */
  lemma HostnameFits(args: Args, timestamp: nat, k: nat, n: nat)
    requires IsAscii(args.message)
    requires Budget(args, timestamp) > 0
    requires 1 <= k < 0x100_0000 && n < 0x100_0000
    ensures EndsWith(Hostname(args, timestamp, k, n), args.domain)
    ensures |Hostname(args, timestamp, k, n)| <= 253
    ensures var ls := Labels(EncodeChunk(args.encoding, Chunk(args.message, Budget(args, timestamp), k)));
      forall i :: 0 <= i < |ls| ==> 1 <= |ls[i]| <= MAX_LABEL_LEN
  {
    var e := args.encoding;
    var header1 := Header1(e, args.sender, timestamp);
    var c := Budget(args, timestamp);
    var a := Available(header1, args.domain);
    var part := Chunk(args.message, c, k);
    var enc := EncodeChunk(e, part);
    var h := Hostname(args, timestamp, k, n);
    assert h == Header(header1, k, n) + Payload(e, part) + args.domain;
    assert EndsWith(h, args.domain) by {
      assert h[|h| - |args.domain|..] == args.domain;
    }
    Hex6Fields(k);
    Hex6Fields(n);
    assert |Header(header1, k, n)| == |header1| + 14;
    ChunkBytes(args.message, c, k);
    EncodedChunkLength(e, part);
    if e == B32 {
      Base32Fits(a, |part|);
    } else {
      Base64Fits(a, |part|);
    }
    assert |enc| <= a <= 235;
    LabelsCover(enc);
    DivBelow(|enc| + MAX_LABEL_LEN - 1, MAX_LABEL_LEN, 5);
    DotAfterEachLength(Labels(enc));
    assert |Payload(e, part)| <= a + 4;
  }

  /** query(...) is true exactly when there is a first answer whose second
      and third characters are "OK" (the ones after the opening quote). */
  lemma AcknowledgedIff(r: Response)
    ensures Acknowledged(r) <==>
      r.Answers? && |r.texts| > 0 && |r.texts[0]| >= 3 && r.texts[0][1] == 'O' && r.texts[0][2] == 'K'
  {
    if r.Answers? && |r.texts| > 0 {
      var t := r.texts[0];
      SliceFrom(t, 1, 3);
      if |t| >= 3 {
        assert Slice(t, 1, 3) == [t[1], t[2]];
      }
    }
  }
}
