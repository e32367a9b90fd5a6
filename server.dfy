/** The receiving side of DNSMsg (DNSMsgServer.py): an authoritative server
    for one zone. It answers from a fixed table of records, tries to read a
    Base32 message out of the labels of every name under the zone, and hands
    back, as the address of names it has no record for, an address built
    from the acknowledgment octets of the last message it decoded. */
module DNSMsgServer {
  import opened Text
  import Utf8
  import Base32

  const TTL := 60
  const CLASS_IN := 1
  /** The text of the TXT answer for names without a record. */
  const PROC_RESP := "FALSE"

  // ---------------------------------------------------------------------
  // Names
  // ---------------------------------------------------------------------

  /** DomainName: D.x is the name "x." + D. */
  function Child(parent: string, x: string): string
  {
    x + "." + parent
  }

  /** D: the domain argument as an absolute name. */
  function Apex(domain: string): string
  {
    domain + "."
  }

  /** The name is the zone itself or ends with "." followed by it; the
      comparison is exact, with no case folding. */
  predicate InZone(qn: string, zone: string)
  {
    qn == zone || EndsWith(qn, "." + zone)
  }

  // ---------------------------------------------------------------------
  // Records
  // ---------------------------------------------------------------------

  datatype RData =
    | A(address: string)
    | AAAA(octets: seq<byte>)
    | MX(preference: nat, exchange: string)
    | NS(target: string)
    | SOA(mname: string, rname: string, serial: nat, refresh: nat, retry: nat, expire: nat, minimum: nat)
    | TXT(text: string)

  /** The class name of the record data, which is also its query type name. */
  function TypeName(d: RData): string
  {
    match d
    case A(_) => "A"
    case AAAA(_) => "AAAA"
    case MX(_, _) => "MX"
    case NS(_) => "NS"
    case SOA(_, _, _, _, _, _, _) => "SOA"
    case TXT(_) => "TXT"
  }

  /** A resource record as RR(rname, rtype, rclass, ttl, rdata). */
  datatype RR = RR(rname: string, rtype: string, rclass: nat, ttl: nat, rdata: RData)

  /** The record every section of a reply is built from: class IN, TTL 60,
      and the type named after the data. */
  function Record(name: string, d: RData): RR
  {
    RR(name, TypeName(d), CLASS_IN, TTL, d)
  }

  datatype Reply = Reply(
    id: nat, qr: nat, aa: nat, ra: nat, qname: string, qtype: string,
    answers: seq<RR>, authority: seq<RR>, additional: seq<RR>)

  /** The zone's SOA: ns1 as primary, admin as mailbox, and fixed timers. */
  function Soa(zone: string): RData
  {
    SOA(Child(zone, "ns1"), Child(zone, "admin"), 201307231, 3600, 1800, 604800, 86400)
  }

  function NsRecords(zone: string): seq<RData>
  {
    [NS(Child(zone, "ns1")), NS(Child(zone, "ns2"))]
  }

  /** One key of the records table with its record data, in table order. */
  datatype Entry = Entry(name: string, rrs: seq<RData>)

  /** The records table, built once from the startup address. An MX record
      made without a preference has preference 10. */
  function Records(zone: string, ip: string): seq<Entry>
  {
    [ Entry(zone, [A(ip), AAAA(Repeat(0, 16)), MX(10, Child(zone, "mail")), Soa(zone)] + NsRecords(zone)),
      Entry(Child(zone, "ns1"), [A(ip)]),
      Entry(Child(zone, "ns2"), [A(ip)]),
      Entry(Child(zone, "mail"), [A(ip)]) ]
  }

  predicate DistinctNames(table: seq<Entry>)
  {
    forall i, j :: 0 <= i < j < |table| ==> table[i].name != table[j].name
  }

  /** The answers one entry gives: its record data in order, kept when the
      query type is '*' or the data's type name. */
  function Matching(qn: string, qt: string, rrs: seq<RData>): seq<RR>
  {
    if rrs == [] then [] else Matching(qn, qt, rrs[..|rrs| - 1]) + Kept(qn, qt, rrs[|rrs| - 1])
  }

  /** The query type asks for the datum: it is '*' or the datum's type name. */
  predicate Wanted(qt: string, d: RData)
  {
    qt == "*" || qt == TypeName(d)
  }

  /** The answer one record datum gives, if any. */
  function Kept(qn: string, qt: string, d: RData): seq<RR>
  {
    if Wanted(qt, d) then [Record(qn, d)] else []
  }

  /** The answers from every entry whose name equals the query name. */
  function Select(table: seq<Entry>, qn: string, qt: string): seq<RR>
  {
    if table == [] then []
    else
      var e := table[|table| - 1];
      Select(table[..|table| - 1], qn, qt) + (if e.name == qn then Matching(qn, qt, e.rrs) else [])
  }

  /** The generic answer when the table gave none: the current address for
      type A, "FALSE" for type TXT, nothing otherwise. */
  function Fallback(qn: string, qt: string, ip: string): seq<RR>
  {
    (if qt == "A" then [Record(qn, A(ip))] else [])
    + (if qt == "TXT" then [Record(qn, TXT(PROC_RESP))] else [])
  }

  function Answers(table: seq<Entry>, qn: string, qt: string, ip: string): seq<RR>
  {
    var selected := Select(table, qn, qt);
    if selected != [] then selected else Fallback(qn, qt, ip)
  }

  /** One turn of the loop over an entry's record data keeps the answers
      equal to those before the entry plus the matches so far. */
  lemma AppendStep(qn: string, qt: string, rrs: seq<RData>, j: nat, answers0: seq<RR>, answers: seq<RR>)
    requires j < |rrs| && answers == answers0 + Matching(qn, qt, rrs[..j])
    ensures (if Wanted(qt, rrs[j]) then answers + [Record(qn, rrs[j])] else answers)
      == answers0 + Matching(qn, qt, rrs[..j + 1])
  {
    MatchingStep(qn, qt, rrs, j);
    assert answers0 + Matching(qn, qt, rrs[..j]) + Kept(qn, qt, rrs[j])
      == answers0 + (Matching(qn, qt, rrs[..j]) + Kept(qn, qt, rrs[j]));
  }

  lemma SelectStep(table: seq<Entry>, qn: string, qt: string, i: nat)
    requires i < |table|
    ensures Select(table[..i + 1], qn, qt) ==
      Select(table[..i], qn, qt) + (if table[i].name == qn then Matching(qn, qt, table[i].rrs) else [])
  {
    assert table[..i + 1][..i] == table[..i];
  }

  lemma MatchingStep(qn: string, qt: string, rrs: seq<RData>, j: nat)
    requires j < |rrs|
    ensures Matching(qn, qt, rrs[..j + 1]) == Matching(qn, qt, rrs[..j]) + Kept(qn, qt, rrs[j])
  {
    assert rrs[..j + 1][..j] == rrs[..j];
  }

  /** The inner loop of dns_response over one entry's record data: appends
      a record for each datum of the query type and notes that one was found. */
  method AppendMatches(qn: string, qt: string, rrs: seq<RData>, answers0: seq<RR>, found0: bool)
    returns (answers: seq<RR>, found: bool)
    requires found0 == (|answers0| > 0)
    ensures answers == answers0 + Matching(qn, qt, rrs)
    ensures found == (|answers| > 0)
  {
    answers, found := answers0, found0;
    var j := 0;
    while j < |rrs|
      invariant 0 <= j <= |rrs|
      invariant answers == answers0 + Matching(qn, qt, rrs[..j])
      invariant found == (|answers| > 0)
    {
      var rdata := rrs[j];
      AppendStep(qn, qt, rrs, j, answers0, answers);
      if Wanted(qt, rdata) {
        answers := answers + [Record(qn, rdata)];
        found := true;
      }
      j := j + 1;
    }
    assert rrs[..j] == rrs;
  }

  /** The two NS records, owned by the zone, as additional records. */
  function Additional(zone: string): (r: seq<RR>)
    ensures |r| == |NsRecords(zone)|
  {
    seq(|NsRecords(zone)|, i requires 0 <= i < |NsRecords(zone)| => Record(zone, NsRecords(zone)[i]))
  }

  // ---------------------------------------------------------------------
  // Decoding a message from a query name
  // ---------------------------------------------------------------------

  /** hostname[0 : len(hostname) - (len(domain) + 2)]: drops "." + domain + "."
      from a name below the zone; for the zone itself the end is -1. */
  function StripDomain(qn: string, domain: string): string
  {
    Slice(qn, 0, |qn| - (|domain| + 2))
  }

  function UpperChar(c: char): char
  {
    if 'a' <= c <= 'z' then (c as int - 32) as char else c
  }

  /** str.upper() on ASCII letters. */
  function Upper(s: string): (r: string)
    ensures |r| == |s| && forall i :: 0 <= i < |s| ==> r[i] == UpperChar(s[i])
  {
    seq(|s|, i requires 0 <= i < |s| => UpperChar(s[i]))
  }

  /** The text handed to the decoder: the name without the domain, every '0'
      turned into '=', and the dots removed. */
  function Cleaned(qn: string, domain: string): string
  {
    Replace(Replace(StripDomain(qn, domain), "0", "="), ".", "")
  }

  /** "1.<b12>.<b13>.<b14>": the acknowledgment octets in decimal. */
  function AckAddress(p: seq<byte>): string
    requires |p| >= 15
  {
    "1." + Decimal(p[12]) + "." + Decimal(p[13]) + "." + Decimal(p[14])
  }

  /** A decoded message: the sender id, the text, and the new address. */
  datatype Decoded = Decoded(id: string, msg: string, address: string)

  /** What procmsg reads from a name, or None where it raises and gives up:
      the Base32 payload's bytes [0:12] as the UTF-8 sender id, bytes [16:]
      as the UTF-8 message, and bytes 12, 13 and 14 for the address. */
  function DecodeName(qn: string, domain: string): Option<Decoded>
  {
    match Base32.Decode(Upper(Cleaned(qn, domain)))
    case None => None
    case Some(p) =>
      match Utf8.Decode(Slice(p, 0, 12))
      case None => None
      case Some(id) =>
        match Utf8.Decode(Slice(p, 16, |p|))
        case None => None
        case Some(msg) => if |p| < 15 then None else Some(Decoded(id, msg, AckAddress(p)))
  }

  /** The command line: cmd with "{id}" replaced, then "{msg}" replaced. */
  function Command(cmd: string, id: string, msg: string): string
  {
    Replace(Replace(cmd, "{id}", id), "{msg}", msg)
  }

  // ---------------------------------------------------------------------
  // The server
  // ---------------------------------------------------------------------

  /** The server's state: the configuration read at startup, the records
      built from it, the address given out for unknown names (the global IP)
      and the queue of command lines waiting to be run. */
  class Server {
    const domain: string
    const cmd: string
    /** The --ip argument, which the records table keeps. */
    const startIp: string
    /** D, soa, ns and records: the globals built at startup. */
    const zone: string
    const soa: RData
    const ns: seq<RData>
    const records: seq<Entry>
    var ip: string
    var queue: seq<string>

    predicate Valid()
    {
      && zone == Apex(domain)
      && soa == Soa(zone)
      && ns == NsRecords(zone)
      && records == Records(zone, startIp)
    }

    constructor(domain: string, ip: string, cmd: string)
      ensures Valid()
      ensures this.domain == domain && this.cmd == cmd && startIp == ip
      ensures this.ip == ip && queue == []
    {
      this.domain := domain;
      this.cmd := cmd;
      startIp := ip;
      zone := Apex(domain);
      soa := Soa(Apex(domain));
      ns := NsRecords(Apex(domain));
      records := Records(Apex(domain), ip);
      this.ip := ip;
      queue := [];
    }

    /** procmsg: decodes a message from the name. On success the address
        becomes "1.b12.b13.b14", one command line is queued when a command is
        configured, and "id|msg" is printed; on any failure nothing changes. */
    method ProcMsg(hostname: string) returns (printed: Option<string>)
      modifies this
      ensures DecodeName(hostname, domain).None? ==>
        ip == old(ip) && queue == old(queue) && printed == None
      ensures DecodeName(hostname, domain).Some? ==>
        var d := DecodeName(hostname, domain).value;
        && ip == d.address
        && queue == old(queue) + (if cmd != "" then [Command(cmd, d.id, d.msg)] else [])
        && printed == Some(d.id + "|" + d.msg)
    {
      var name := Slice(hostname, 0, |hostname| - (|domain| + 2));
      name := Replace(name, "0", "=");
      name := Replace(name, ".", "");
      var payload := Base32.Decode(Upper(name));
      if payload.None? {
        return None;
      }
      var p := payload.value;
      var id := Utf8.Decode(Slice(p, 0, 12));
      if id.None? {
        return None;
      }
      var msg := Utf8.Decode(Slice(p, 16, |p|));
      if msg.None? {
        return None;
      }
      if |p| < 15 {
        return None;
      }
      ip := "1." + Decimal(p[12]) + "." + Decimal(p[13]) + "." + Decimal(p[14]);
      if cmd != "" {
        var cmdline := Replace(cmd, "{id}", id.value);
        cmdline := Replace(cmdline, "{msg}", msg.value);
        queue := queue + [cmdline];
      }
      printed := Some(id.value + "|" + msg.value);
    }

    /** The answers dns_response gives a name in the zone: those of every
        table entry named qn whose type is qt (any type for '*'), in table
        order; failing those, an A record with the current address for type
        A or TXT "FALSE" for type TXT. */
    method SelectAnswers(qn: string, qt: string) returns (answers: seq<RR>)
      ensures answers == Answers(records, qn, qt, ip)
    {
      answers := [];
      var found := false;
      var i := 0;
      while i < |records|
        invariant 0 <= i <= |records|
        invariant answers == Select(records[..i], qn, qt)
        invariant found == (|answers| > 0)
      {
        var entry := records[i];
        SelectStep(records, qn, qt, i);
        if entry.name == qn {
          answers, found := AppendMatches(qn, qt, entry.rrs, answers, found);
        }
        i := i + 1;
      }
      assert records[..i] == records;
      if !found {
        if qt == "A" {
          answers := answers + [RR(qn, "A", CLASS_IN, TTL, A(ip))];
        }
        if qt == "TXT" {
          answers := answers + [RR(qn, "TXT", CLASS_IN, TTL, TXT(PROC_RESP))];
        }
      }
    }

    /** The sections of a reply for a name in the zone: the answers, the two
        NS records as additional records and the SOA as authority record. */
    method Sections(qn: string, qt: string) returns (answers: seq<RR>, authority: seq<RR>, additional: seq<RR>)
      requires Valid()
      ensures answers == Answers(records, qn, qt, ip)
      ensures additional == Additional(zone)
      ensures authority == [Record(zone, Soa(zone))]
    {
      answers := SelectAnswers(qn, qt);
      additional := [];
      var k := 0;
      while k < |ns|
        invariant 0 <= k <= |ns|
        invariant additional == Additional(zone)[..k]
      {
        assert Additional(zone)[..k + 1] == Additional(zone)[..k] + [Additional(zone)[k]];
        additional := additional + [RR(zone, "NS", CLASS_IN, TTL, ns[k])];
        k := k + 1;
      }
      assert Additional(zone)[..k] == Additional(zone);
      authority := [RR(zone, "SOA", CLASS_IN, TTL, soa)];
    }

    /** dns_response for a parsed question (id, name, type name): a reply
        echoing the id and question with qr, aa and ra set. A name in the
        zone is first given to ProcMsg; then the sections are filled, the
        fallback answer using the address as ProcMsg left it. A name outside
        the zone gets empty sections and changes nothing. */
    method DnsResponse(id: nat, qn: string, qt: string) returns (reply: Reply, printed: Option<string>)
      requires Valid()
      modifies this
      ensures reply.id == id && reply.qr == 1 && reply.aa == 1 && reply.ra == 1
      ensures reply.qname == qn && reply.qtype == qt
      ensures !InZone(qn, zone) ==>
        && reply.answers == [] && reply.authority == [] && reply.additional == []
        && ip == old(ip) && queue == old(queue) && printed == None
      ensures InZone(qn, zone) && DecodeName(qn, domain).None? ==>
        ip == old(ip) && queue == old(queue) && printed == None
      ensures InZone(qn, zone) && DecodeName(qn, domain).Some? ==>
        var d := DecodeName(qn, domain).value;
        && ip == d.address
        && queue == old(queue) + (if cmd != "" then [Command(cmd, d.id, d.msg)] else [])
        && printed == Some(d.id + "|" + d.msg)
      ensures InZone(qn, zone) ==>
        && reply.answers == Answers(records, qn, qt, ip)
        && reply.additional == Additional(zone)
        && reply.authority == [Record(zone, Soa(zone))]
    {
      reply := Reply(id, 1, 1, 1, qn, qt, [], [], []);
      printed := None;
      if qn == zone || EndsWith(qn, "." + zone) {
        printed := ProcMsg(qn);
        var answers, authority, additional := Sections(qn, qt);
        reply := reply.(answers := answers, authority := authority, additional := additional);
      }
    }
  }

  // ---------------------------------------------------------------------
  // Properties of the records table and of answer selection
  // ---------------------------------------------------------------------

  /** A child name lies in its parent's zone, and the zone's own name is
      shorter than any child's. */
  lemma ChildInZone(parent: string, x: string)
    ensures InZone(Child(parent, x), parent)
    ensures EndsWith(Child(parent, x), "." + parent)
    ensures |Child(parent, x)| == |x| + 1 + |parent|
  {
    assert Child(parent, x)[|x|..] == "." + parent;
  }

  /** The table holds the zone and its three hosts, each under a distinct
      name in the zone. */
  lemma RecordsInZone(zone: string, ip: string)
    ensures var t := Records(zone, ip);
      && |t| == 4
      && t[0].name == zone
      && DistinctNames(t)
      && forall k :: 0 <= k < |t| ==> InZone(t[k].name, zone)
  {
    var t := Records(zone, ip);
    ChildInZone(zone, "ns1");
    ChildInZone(zone, "ns2");
    ChildInZone(zone, "mail");
    assert t[1].name[2] != t[2].name[2];
    assert t[1].name[0] != t[3].name[0];
    assert t[2].name[0] != t[3].name[0];
  }

  /** Matching keeps exactly the record data of the query type (all of it for
      '*'), each turned into a record owned by the query name. */
  lemma {:induction false} MatchingSpec(qn: string, qt: string, rrs: seq<RData>)
    ensures forall r :: r in Matching(qn, qt, rrs) ==>
      r == Record(qn, r.rdata) && r.rdata in rrs && (qt == "*" || r.rtype == qt)
    ensures forall d :: d in rrs && (qt == "*" || TypeName(d) == qt) ==> Record(qn, d) in Matching(qn, qt, rrs)
  {
    if rrs != [] {
      var init := rrs[..|rrs| - 1];
      MatchingSpec(qn, qt, init);
      assert rrs == init + [rrs[|rrs| - 1]];
    }
  }

  lemma {:induction false} MatchingAppend(qn: string, qt: string, a: seq<RData>, b: seq<RData>)
    ensures Matching(qn, qt, a + b) == Matching(qn, qt, a) + Matching(qn, qt, b)
    decreases |b|
  {
    if b != [] {
      var init := b[..|b| - 1];
      assert (a + b)[..|a + b| - 1] == a + init;
      MatchingAppend(qn, qt, a, init);
    } else {
      assert a + b == a;
    }
  }

  /** For '*' every record datum is answered, in order. */
  lemma {:induction false} MatchAll(qn: string, rrs: seq<RData>)
    ensures Matching(qn, "*", rrs) == seq(|rrs|, i requires 0 <= i < |rrs| => Record(qn, rrs[i]))
  {
    if rrs != [] {
      MatchAll(qn, rrs[..|rrs| - 1]);
    }
  }

  /** No entry named qn: the table gives nothing. */
  lemma {:induction false} SelectNone(table: seq<Entry>, qn: string, qt: string)
    requires forall k :: 0 <= k < |table| ==> table[k].name != qn
    ensures Select(table, qn, qt) == []
  {
    if table != [] {
      SelectNone(table[..|table| - 1], qn, qt);
    }
  }

  /** With distinct names, the table gives what the one entry named qn matches. */
  lemma {:induction false} SelectFromEntry(table: seq<Entry>, qn: string, qt: string, k: nat)
    requires DistinctNames(table) && k < |table| && table[k].name == qn
    ensures Select(table, qn, qt) == Matching(qn, qt, table[k].rrs)
  {
    var init := table[..|table| - 1];
    if k == |table| - 1 {
      SelectNone(init, qn, qt);
    } else {
      SelectFromEntry(init, qn, qt, k);
    }
  }

  /** The answers to a name that is a key are the entry's matches, or the
      fallback when none match; to a name that is not a key, the fallback. */
  lemma AnswerSelection(table: seq<Entry>, qn: string, qt: string, ip: string)
    requires DistinctNames(table)
    ensures forall k :: 0 <= k < |table| && table[k].name == qn ==>
      Answers(table, qn, qt, ip) ==
        (if Matching(qn, qt, table[k].rrs) != [] then Matching(qn, qt, table[k].rrs) else Fallback(qn, qt, ip))
    ensures (forall k :: 0 <= k < |table| ==> table[k].name != qn) ==>
      Answers(table, qn, qt, ip) == Fallback(qn, qt, ip)
  {
    forall k | 0 <= k < |table| && table[k].name == qn
      ensures Select(table, qn, qt) == Matching(qn, qt, table[k].rrs)
    {
      SelectFromEntry(table, qn, qt, k);
    }
    if forall k :: 0 <= k < |table| ==> table[k].name != qn {
      SelectNone(table, qn, qt);
    }
  }

  /** The fallback gives the address asked for under type A, "FALSE" under
      type TXT, and nothing under any other type. */
  lemma FallbackCases(qn: string, qt: string, ip: string)
    ensures qt == "A" ==> Fallback(qn, qt, ip) == [RR(qn, "A", CLASS_IN, TTL, A(ip))]
    ensures qt == "TXT" ==> Fallback(qn, qt, ip) == [RR(qn, "TXT", CLASS_IN, TTL, TXT("FALSE"))]
    ensures qt != "A" && qt != "TXT" ==> Fallback(qn, qt, ip) == []
  {
    assert "A" != "TXT";
  }

  /** What the zone's own name answers: its A record with the startup
      address whatever the current address, its two NS records, all six
      records for '*', and "FALSE" for TXT, for which it has no record. */
  lemma ApexAnswers(zone: string, startIp: string, ip: string)
    ensures var t := Records(zone, startIp);
      && Answers(t, zone, "A", ip) == [Record(zone, A(startIp))]
      && Answers(t, zone, "NS", ip) == [Record(zone, NS(Child(zone, "ns1"))), Record(zone, NS(Child(zone, "ns2")))]
      && Answers(t, zone, "TXT", ip) == [Record(zone, TXT("FALSE"))]
      && |Answers(t, zone, "*", ip)| == 6
      && Answers(t, zone, "*", ip)[4] == Record(zone, NS(Child(zone, "ns1")))
  {
    var t := Records(zone, startIp);
    var r := t[0].rrs;
    assert Answers(t, zone, "A", ip) == [Record(zone, A(startIp))] by {
      ApexMatching(zone, startIp, ip, "A");
      assert Matching(zone, "A", r) == [Record(zone, A(startIp))];
    }
    assert Answers(t, zone, "NS", ip) == [Record(zone, NS(Child(zone, "ns1"))), Record(zone, NS(Child(zone, "ns2")))] by {
      ApexMatching(zone, startIp, ip, "NS");
      assert Matching(zone, "NS", r) == [Record(zone, NS(Child(zone, "ns1"))), Record(zone, NS(Child(zone, "ns2")))];
    }
    assert Answers(t, zone, "TXT", ip) == [Record(zone, TXT("FALSE"))] by {
      ApexMatching(zone, startIp, ip, "TXT");
      assert Matching(zone, "TXT", r) == [];
    }
    ApexMatching(zone, startIp, ip, "*");
    MatchAll(zone, r);
  }

  /** The zone's answers are the matches of its six record data, in order. */
  lemma ApexMatching(zone: string, startIp: string, ip: string, qt: string)
    ensures var r := Records(zone, startIp)[0].rrs;
      && |r| == 6
      && Answers(Records(zone, startIp), zone, qt, ip) ==
        (if Matching(zone, qt, r) != [] then Matching(zone, qt, r) else Fallback(zone, qt, ip))
      && Matching(zone, qt, r) ==
        Kept(zone, qt, r[0]) + Kept(zone, qt, r[1]) + Kept(zone, qt, r[2])
        + Kept(zone, qt, r[3]) + Kept(zone, qt, r[4]) + Kept(zone, qt, r[5])
  {
    RecordsInZone(zone, startIp);
    SelectFromEntry(Records(zone, startIp), zone, qt, 0);
    MatchingSix(zone, qt, Records(zone, startIp)[0].rrs);
  }

  lemma MatchingSix(qn: string, qt: string, r: seq<RData>)
    requires |r| == 6
    ensures Matching(qn, qt, r) ==
      Kept(qn, qt, r[0]) + Kept(qn, qt, r[1]) + Kept(qn, qt, r[2])
      + Kept(qn, qt, r[3]) + Kept(qn, qt, r[4]) + Kept(qn, qt, r[5])
  {
    assert r[..1][..0] == [];
    assert Matching(qn, qt, r[..1]) == Kept(qn, qt, r[0]);
    assert r[..2][..1] == r[..1];
    assert Matching(qn, qt, r[..2]) == Matching(qn, qt, r[..1]) + Kept(qn, qt, r[1]);
    assert r[..3][..2] == r[..2];
    assert Matching(qn, qt, r[..3]) == Matching(qn, qt, r[..2]) + Kept(qn, qt, r[2]);
    assert r[..4][..3] == r[..3];
    assert Matching(qn, qt, r[..4]) == Matching(qn, qt, r[..3]) + Kept(qn, qt, r[3]);
    assert r[..5][..4] == r[..4];
    assert Matching(qn, qt, r[..5]) == Matching(qn, qt, r[..4]) + Kept(qn, qt, r[4]);
    assert r[..5] == r[..|r| - 1];
  }

  /** A host of the zone answers type A with the startup address, even after
      a message moved the current address elsewhere. */
  lemma HostAnswers(zone: string, startIp: string, ip: string, x: string)
    requires x == "ns1" || x == "ns2" || x == "mail"
    ensures Answers(Records(zone, startIp), Child(zone, x), "A", ip) == [Record(Child(zone, x), A(startIp))]
  {
    var t := Records(zone, startIp);
    RecordsInZone(zone, startIp);
    var k := if x == "ns1" then 1 else if x == "ns2" then 2 else 3;
    SelectFromEntry(t, Child(zone, x), "A", k);
    assert t[k].rrs[..0] == [];
  }

  /** A name in the zone that is not a key, such as one carrying a message,
      gets the fallback: the current address under type A. */
  lemma MessageNameAnswers(zone: string, startIp: string, ip: string, qn: string, qt: string)
    requires qn != zone && qn != Child(zone, "ns1") && qn != Child(zone, "ns2") && qn != Child(zone, "mail")
    ensures Answers(Records(zone, startIp), qn, qt, ip) == Fallback(qn, qt, ip)
  {
    var t := Records(zone, startIp);
    assert forall k :: 0 <= k < |t| ==> t[k].name != qn;
    SelectNone(t, qn, qt);
  }

  // ---------------------------------------------------------------------
  // Properties of decoding
  // ---------------------------------------------------------------------

  /** Stripping the domain from a name "x." + D leaves x; from D itself the
      end bound is -1, which leaves the domain. */
  lemma StripChild(domain: string, x: string)
    ensures StripDomain(Child(Apex(domain), x), domain) == x
  {
    var n := Child(Apex(domain), x);
    assert n[..|x|] == x;
  }

  lemma StripApex(domain: string)
    ensures StripDomain(Apex(domain), domain) == domain
  {
    assert Apex(domain)[..|domain|] == domain;
  }

  /** Soundness of DecodeName: a result comes from a Base32 payload of at
      least 15 bytes whose bytes 0 to 11 are the UTF-8 of the id, whose bytes
      from 16 on are the UTF-8 of the message, and whose bytes 12 to 14 give
      the address. */
  lemma DecodedFields(qn: string, domain: string)
    requires DecodeName(qn, domain).Some?
    ensures var d := DecodeName(qn, domain).value;
      var p := Base32.Decode(Upper(Cleaned(qn, domain)));
      && p.Some? && |p.value| >= 15
      && Utf8.Encode(d.id) == p.value[..12]
      && Utf8.Encode(d.msg) == p.value[Min(16, |p.value|)..]
      && d.address == AckAddress(p.value)
  {
    var p := Base32.Decode(Upper(Cleaned(qn, domain))).value;
    var id := Utf8.Decode(Slice(p, 0, 12)).value;
    var msg := Utf8.Decode(Slice(p, 16, |p|)).value;
    assert |p| >= 15 && DecodeName(qn, domain).value == Decoded(id, msg, AckAddress(p));
    SliceFrom(p, 0, 12);
    if |p| >= 16 { SliceFrom(p, 16, |p|); }
    Utf8.DecodeEncode(Slice(p, 0, 12), id);
    Utf8.DecodeEncode(Slice(p, 16, |p|), msg);
  }

  /** The labels of a name below the zone, run together after every '0' is
      read back as '=', when they spell e with its '=' written as '0' and
      neither e nor any label holds a '0' or a dot of its own. */
  lemma CleanedLabels(domain: string, labels: seq<string>, e: string)
    requires labels != []
    requires forall k :: 0 <= k < |labels| ==> '.' !in labels[k]
    requires '0' !in e
    requires Concat(labels) == Substitute(e, '=', "0")
    ensures Cleaned(DotAfterEach(labels) + Apex(domain), domain) == e
  {
    var y := DotAfterEach(labels);
    var x := DotAfterEach(labels[..|labels| - 1]) + labels[|labels| - 1];
    assert y == x + ".";
    var name := y + Apex(domain);
    SliceFrom(name, 0, |y| - 1);
    assert name[..|y| - 1] == x;
    assert StripDomain(name, domain) == x;
    var z := Substitute(x, '0', "=");
    ReplaceChar(x, '0', "=");
    ReplaceChar(z, '.', "");
    var se := SubstituteEach(labels, '0', "=");
    SubstituteAppend(x, ".", '0', "=");
    assert Substitute(".", '0', "=") == "." by { assert "."[1..] == []; }
    SubstituteLabels(labels, '0', "=");
    assert z + "." == DotAfterEach(se);
    SubstituteAppend(z, ".", '.', "");
    assert Substitute(".", '.', "") == "" by { assert "."[1..] == []; }
    forall k | 0 <= k < |se| ensures '.' !in se[k] {
      SubstituteKeepsOut(labels[k], '0', "=", '.');
    }
    RemoveDots(se);
    SubstituteConcat(labels, '0', "=");
    SubstituteBack(e, '=', '0');
  }

  /** Upper leaves text without lower-case letters unchanged. */
  lemma UpperKeeps(s: string)
    requires forall i :: 0 <= i < |s| ==> !('a' <= s[i] <= 'z')
    ensures Upper(s) == s
  {
  }

  /** Completeness of DecodeName: a name whose labels spell the Base32 of
      12 bytes of UTF-8 id, four acknowledgment bytes and the UTF-8 message,
      with every '=' written as '0', decodes to that id and message and to
      the address of the first three acknowledgment bytes. */
  lemma AcceptsFrame(domain: string, labels: seq<string>, id: string, ack: seq<byte>, msg: string)
    requires |Utf8.Encode(id)| == 12 && |ack| == 4
    requires forall k :: 0 <= k < |labels| ==> '.' !in labels[k]
    requires Concat(labels) == Substitute(Base32.Encode(Utf8.Encode(id) + ack + Utf8.Encode(msg)), '=', "0")
    ensures DecodeName(DotAfterEach(labels) + Apex(domain), domain) ==
      Some(Decoded(id, msg, "1." + Decimal(ack[0]) + "." + Decimal(ack[1]) + "." + Decimal(ack[2])))
  {
    var frame := Utf8.Encode(id) + ack + Utf8.Encode(msg);
    var e := Base32.Encode(frame);
    var qn := DotAfterEach(labels) + Apex(domain);
    Base32.EncodedLength(frame);
    Base32.EncodedSymbols(frame);
    assert e != [];
    assert Substitute(e, '=', "0") != [];
    assert '0' !in e by {
      forall i | 0 <= i < |e| ensures e[i] != '0' { }
    }
    assert Base32.Decode(Upper(Cleaned(qn, domain))) == Some(frame) by {
      CleanedLabels(domain, labels, e);
      UpperKeeps(e);
      Base32.RoundTrip(frame);
    }
    FrameParts(Utf8.Encode(id), ack, Utf8.Encode(msg));
    Utf8.EncodeDecode(id);
    Utf8.EncodeDecode(msg);
    DecodedFrom(qn, domain, frame, id, msg);
  }

  /** The three fields of a frame of 12 + 4 + n bytes, as procmsg slices it. */
  lemma FrameParts(a: seq<byte>, ack: seq<byte>, m: seq<byte>)
    requires |a| == 12 && |ack| == 4
    ensures var f := a + ack + m;
      && Slice(f, 0, 12) == a && Slice(f, 16, |f|) == m
      && f[12] == ack[0] && f[13] == ack[1] && f[14] == ack[2]
  {
    var f := a + ack + m;
    SliceFrom(f, 0, 12);
    SliceFrom(f, 16, |f|);
    assert f[..12] == a && f[16..] == m;
  }

  /** DecodeName succeeds once each of its steps does. */
  lemma DecodedFrom(qn: string, domain: string, p: seq<byte>, id: string, msg: string)
    requires Base32.Decode(Upper(Cleaned(qn, domain))) == Some(p) && |p| >= 15
    requires Utf8.Decode(Slice(p, 0, 12)) == Some(id)
    requires Utf8.Decode(Slice(p, 16, |p|)) == Some(msg)
    ensures DecodeName(qn, domain) == Some(Decoded(id, msg, AckAddress(p)))
  {
  }

  /** The address holds four dot-separated fields: "1" and the three
      acknowledgment octets in decimal, which read back as those octets. */
  lemma AckAddressFields(p: seq<byte>)
    requires |p| >= 15
    ensures Split(AckAddress(p), '.') == ["1", Decimal(p[12]), Decimal(p[13]), Decimal(p[14])]
    ensures NumeralValue(Decimal(p[12]), 10) == p[12] as nat
    ensures NumeralValue(Decimal(p[13]), 10) == p[13] as nat
    ensures NumeralValue(Decimal(p[14]), 10) == p[14] as nat
  {
    NumeralRoundTrip(p[12] as nat, 10);
    NumeralRoundTrip(p[13] as nat, 10);
    NumeralRoundTrip(p[14] as nat, 10);
    DottedFields(Decimal(p[12]), Decimal(p[13]), Decimal(p[14]));
  }

  lemma DottedFields(a: string, b: string, c: string)
    requires '.' !in a && '.' !in b && '.' !in c
    ensures Split("1." + a + "." + b + "." + c, '.') == ["1", a, b, c]
  {
    SplitJoin(["1", a, b, c], '.');
    JoinFour("1", a, b, c, '.');
    assert "1" + "." == "1.";
  }

  // ---------------------------------------------------------------------
  // Properties of the command line
  // ---------------------------------------------------------------------

  /** A command without braces is run as written. */
  lemma CommandPlain(cmd: string, id: string, msg: string)
    requires '{' !in cmd
    ensures Command(cmd, id, msg) == cmd
  {
    NoOccurrence(cmd, "{id}");
    ReplaceAbsent(cmd, "{id}", id);
    NoOccurrence(cmd, "{msg}");
    ReplaceAbsent(cmd, "{msg}", msg);
  }

  /** A command with one "{id}" before one "{msg}" gets the id and the
      message in their places, when no other brace occurs in the command or
      the id. */
  lemma CommandTemplate(a: string, b: string, c: string, id: string, msg: string)
    requires '{' !in a && '{' !in b && '{' !in c && '{' !in id
    ensures Command(a + "{id}" + b + "{msg}" + c, id, msg) == a + id + b + msg + c
  {
    var rest := b + "{msg}" + c;
    assert Replace(a + "{id}" + rest, "{id}", id) == a + id + rest by {
      NoEarlierOccurrence(a, "{id}", rest);
      ReplaceLeftmost(a, "{id}", rest, id);
      NoIdIn(b, c);
      ReplaceAbsent(rest, "{id}", id);
    }
    var front := a + id + b;
    assert Replace(front + "{msg}" + c, "{msg}", msg) == front + msg + c by {
      assert '{' !in front;
      NoEarlierOccurrence(front, "{msg}", c);
      ReplaceLeftmost(front, "{msg}", c, msg);
      NoOccurrence(c, "{msg}");
      ReplaceAbsent(c, "{msg}", msg);
    }
    assert a + "{id}" + b + "{msg}" + c == a + "{id}" + rest;
    assert a + id + rest == front + "{msg}" + c;
  }

  /** "{id}" does not occur in b + "{msg}" + c when b and c hold no brace. */
  lemma NoIdIn(b: string, c: string)
    requires '{' !in b && '{' !in c
    ensures forall i: nat :: !OccursAt(b + "{msg}" + c, "{id}", i)
  {
    var rest := b + "{msg}" + c;
    forall i: nat ensures !OccursAt(rest, "{id}", i) {
      if i + 4 <= |rest| {
        if i < |b| {
          assert rest[i] == b[i] && b[i] in b;
        } else if i == |b| {
          assert rest[i + 1] == 'm';
        } else if i < |b| + 5 {
          assert rest[i] == "{msg}"[i - |b|];
        } else {
          assert rest[i] == c[i - |b| - 5] && c[i - |b| - 5] in c;
        }
        assert rest[i..i + 4][0] == rest[i] && rest[i..i + 4][1] == rest[i + 1];
      }
    }
  }
}
