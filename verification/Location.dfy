/** The location strings the name server prints and the client reads (`parse_ss_info`). */
module Location {
  import opened Options
  import opened Scan
  import opened Text

  const IP_WIDTH: nat := 15
  const REPLICA: string := "REPLICA:"

  datatype Address = Address(ip: string, port: int)

  /** Output parameters of `parse_ss_info`; an ip that no conversion wrote is None. */
  datatype SsInfo = SsInfo(ip: Option<string>, port: int, replicaIp: Option<string>, replicaPort: int)

  // ----- strstr -----

  predicate At(s: string, pat: string, i: nat) {
    i + |pat| <= |s| && s[i..i + |pat|] == pat
  }

  predicate Contains(s: string, pat: string) {
    exists i: nat :: i <= |s| && At(s, pat, i)
  }

  /** The position of the first occurrence, or |s| + 1. */
  function Find(s: string, pat: string): nat
    decreases |s|
  {
    if |pat| <= |s| && s[..|pat|] == pat then 0
    else if s == "" then 1
    else 1 + Find(s[1..], pat)
  }

  lemma {:induction false} FindFirst(s: string, pat: string, k: nat)
    requires At(s, pat, k)
    requires forall i :: 0 <= i < k ==> !At(s, pat, i)
    ensures Find(s, pat) == k
  {
    if k > 0 {
      assert !At(s, pat, 0);
      assert s[1..][k - 1..k - 1 + |pat|] == s[k..k + |pat|];
      forall i | 0 <= i < k - 1 ensures !At(s[1..], pat, i) {
        assert !At(s, pat, i + 1);
        if i + |pat| <= |s[1..]| {
          assert s[1..][i..i + |pat|] == s[i + 1..i + 1 + |pat|];
        }
      }
      FindFirst(s[1..], pat, k - 1);
    }
  }

  lemma {:induction false} FindNone(s: string, pat: string)
    requires !Contains(s, pat)
    ensures Find(s, pat) == |s| + 1
  {
    assert !At(s, pat, 0);
    if s != "" {
      forall i: nat | i <= |s[1..]| ensures !At(s[1..], pat, i) {
        assert !At(s, pat, i + 1);
        if i + |pat| <= |s[1..]| {
          assert s[1..][i..i + |pat|] == s[i + 1..i + 1 + |pat|];
        }
      }
      FindNone(s[1..], pat);
    }
  }

  // ----- the reader -----

  function ScanIp(s: string): Option<string> {
    match ScanNot(s, ':', IP_WIDTH)
    case None => None
    case Some((ip, _)) => Some(ip)
  }

  function ScanPort(s: string): int {
    match ScanNot(s, ':', IP_WIDTH)
    case None => 0
    case Some((_, rest)) =>
      match MatchChar(rest, ':')
      case None => 0
      case Some(rest') =>
        match ScanInt(rest')
        case None => 0
        case Some((port, _)) => port
  }

  /** `sscanf(part, "<tag>%15[^:]:%d", ip, port)` at the first occurrence of the tag; both outputs
      keep their old values as far as the conversions do not reach. */
  function ScanAddress(s: string, tag: string): (Option<string>, int) {
    var at := Find(s, tag);
    if at + |tag| > |s| then (None, 0)
    else (ScanIp(s[at + |tag|..]), ScanPort(s[at + |tag|..]))
  }

  function ParseSsInfo(data: string): SsInfo {
    var temp := if |data| < BUFFER_SIZE then data else data[..BUFFER_SIZE - 1];
    var primary := ScanAddress(temp, "SS:");
    var replica := ScanAddress(temp, "REPLICA:");
    SsInfo(primary.0, primary.1, replica.0, replica.1)
  }

  // ----- the printers -----

  datatype Form = Plain | Sentence(number: int) | Command(text: string)

  function PrintAddress(a: Address): string {
    a.ip + ":" + PrintInt(a.port)
  }

  function PrintForm(f: Form): string {
    match f
    case Plain => ""
    case Sentence(n) => "|SENTENCE:" + PrintInt(n)
    case Command(text) => "|CMD:" + text
  }

  function PrintReplica(r: Option<Address>): string {
    match r
    case None => ""
    case Some(a) => "|" + REPLICA + PrintAddress(a)
  }

  function PrintLocation(primary: Address, form: Form, replica: Option<Address>): string {
    "SS:" + PrintAddress(primary) + PrintForm(form) + PrintReplica(replica)
  }

  predicate ValidAddress(a: Address) {
    && 1 <= |a.ip| <= IP_WIDTH
    && (forall i :: 0 <= i < |a.ip| ==> IsDigit(a.ip[i]) || a.ip[i] == '.')
    && 1 <= a.port <= 65535
  }

  /** What the client has to recover. */
  function Wanted(primary: Address, replica: Option<Address>): SsInfo {
    SsInfo(Some(primary.ip), primary.port,
           if replica.Some? then Some(replica.value.ip) else None,
           if replica.Some? then replica.value.port else 0)
  }

  // ----- reading back one address -----

  lemma ScanIpText(ip: string, text: string)
    requires 1 <= |ip| <= IP_WIDTH && (forall i :: 0 <= i < |ip| ==> ip[i] != ':')
    requires text != "" && text[0] == ':'
    ensures ScanNot(ip + text, ':', IP_WIDTH) == Some((ip, text))
  {
    SpanNotOf(ip, ':', text);
    assert (ip + text)[..|ip|] == ip && (ip + text)[|ip|..] == text;
  }

  lemma ScanPrintedText(a: Address, rest: string)
    requires ValidAddress(a) && (rest != "" ==> !IsDigit(rest[0]))
    ensures ScanIp(PrintAddress(a) + rest) == Some(a.ip)
    ensures ScanPort(PrintAddress(a) + rest) == a.port
  {
    var port := PrintInt(a.port) + rest;
    assert PrintAddress(a) + rest == a.ip + (":" + port);
    ScanIpText(a.ip, ":" + port);
    assert (":" + port)[1..] == port;
    IntRoundTrip(a.port, rest);
  }

  lemma ScanPrinted(s: string, tag: string, before: string, a: Address, rest: string)
    requires s == before + tag + (PrintAddress(a) + rest)
    requires ValidAddress(a) && (rest != "" ==> !IsDigit(rest[0]))
    requires Find(s, tag) == |before|
    ensures ScanAddress(s, tag) == (Some(a.ip), a.port)
  {
    assert s[|before| + |tag|..] == PrintAddress(a) + rest;
    ScanPrintedText(a, rest);
  }

  /** A string none of whose characters starts the pattern. */
  predicate Avoids(s: string, c: char) {
    forall i :: 0 <= i < |s| ==> s[i] != c
  }

  lemma HeadAvoids(a: Address)
    requires ValidAddress(a)
    ensures Avoids("SS:" + PrintAddress(a), 'R')
  {
    var ds := PrintInt(a.port);
    assert forall i :: 0 <= i < |ds| ==> IsDigit(ds[i]);
  }

  lemma AtChar(s: string, pat: string, i: nat, k: nat)
    requires At(s, pat, i) && k < |pat|
    ensures i + k < |s| && s[i + k] == pat[k]
  {
    assert s[i..i + |pat|][k] == pat[k];
  }

  lemma AtMiddle(head: string, middle: string, tail: string, pat: string, i: nat)
    requires At(head + middle + tail, pat, i)
    requires |head| <= i && i + |pat| <= |head + middle|
    ensures At(middle, pat, i - |head|)
  {
    var s := head + middle + tail;
    assert s[i..i + |pat|] == middle[i - |head|..i - |head| + |pat|];
  }

  lemma AvoidsTag(s: string)
    requires Avoids(s, 'R')
    ensures !Contains(s, REPLICA)
  {
    forall i: nat | i <= |s| ensures !At(s, REPLICA, i) {
      if At(s, REPLICA, i) {
        AtChar(s, REPLICA, i, 0);
      }
    }
  }

  /** The tag of the replica does not occur before the place where it is printed. */
  lemma NoTagBefore(head: string, middle: string, tail: string, i: nat)
    requires Avoids(head, 'R') && !Contains(middle, REPLICA)
    requires tail != "" ==> tail[0] == '|'
    requires i <= |head + middle|
    ensures !At(head + middle + tail, REPLICA, i)
  {
    var s := head + middle + tail;
    if At(s, REPLICA, i) {
      if i < |head| {
        AtChar(s, REPLICA, i, 0);
      } else if i + |REPLICA| <= |head + middle| {
        AtMiddle(head, middle, tail, REPLICA, i);
      } else {
        AtChar(s, REPLICA, i, |head + middle| - i);
      }
    }
  }

  lemma FormWithoutTag(f: Form)
    requires f.Command? ==> !Contains(f.text, REPLICA)
    ensures !Contains(PrintForm(f), REPLICA)
  {
    match f
    case Plain => AvoidsTag("");
    case Sentence(n) => SentenceWithoutTag(n);
    case Command(text) => CommandWithoutTag(text);
  }

  lemma SentenceWithoutTag(n: int)
    ensures !Contains("|SENTENCE:" + PrintInt(n), REPLICA)
  {
    var ds := PrintInt(n);
    assert forall i :: 1 <= i < |ds| ==> IsDigit(ds[i]);
    assert ds[0] == '-' || IsDigit(ds[0]);
    AvoidsTag("|SENTENCE:" + ds);
  }

  lemma CommandWithoutTag(text: string)
    requires !Contains(text, REPLICA)
    ensures !Contains("|CMD:" + text, REPLICA)
  {
    var s := "|CMD:" + text;
    assert s + "" == s;
    forall i: nat | i <= |s| ensures !At(s, REPLICA, i) {
      NoTagBefore("|CMD:", text, "", i);
    }
  }

  lemma ReadsPrimary(primary: Address, rest: string)
    requires ValidAddress(primary) && (rest != "" ==> rest[0] == '|')
    ensures ScanAddress("SS:" + PrintAddress(primary) + rest, "SS:") == (Some(primary.ip), primary.port)
  {
    var s := "SS:" + PrintAddress(primary) + rest;
    Assoc("SS:", PrintAddress(primary), rest);
    assert s == "" + "SS:" + (PrintAddress(primary) + rest);
    assert s[..3] == "SS:";
    ScanPrinted(s, "SS:", "", primary, rest);
  }

  lemma ReadsReplica(before: string, a: Address)
    requires ValidAddress(a)
    requires forall i :: 0 <= i <= |before| ==> !At(before + "|" + REPLICA + PrintAddress(a), REPLICA, i)
    ensures ScanAddress(before + "|" + REPLICA + PrintAddress(a), REPLICA) == (Some(a.ip), a.port)
  {
    var s := before + "|" + REPLICA + PrintAddress(a);
    assert PrintAddress(a) + "" == PrintAddress(a);
    assert s[|before| + 1..|before| + 1 + |REPLICA|] == REPLICA;
    FindFirst(s, REPLICA, |before| + 1);
    ScanPrinted(s, REPLICA, before + "|", a, "");
  }

  lemma ReadsForm(primary: Address, form: Form, replica: Option<Address>)
    requires ValidAddress(primary) && (replica.Some? ==> ValidAddress(replica.value))
    requires form.Command? ==> !Contains(form.text, REPLICA)
    ensures ScanAddress(PrintLocation(primary, form, replica), REPLICA)
            == if replica.None? then (None, 0) else (Some(replica.value.ip), replica.value.port)
  {
    var s := PrintLocation(primary, form, replica);
    var head, middle, tail := "SS:" + PrintAddress(primary), PrintForm(form), PrintReplica(replica);
    HeadAvoids(primary);
    FormWithoutTag(form);
    forall i: nat | i <= |head + middle| ensures !At(s, REPLICA, i) {
      NoTagBefore(head, middle, tail, i);
    }
    match replica
    case None =>
      assert s == head + middle;
      FindNone(s, REPLICA);
    case Some(a) =>
      assert s == (head + middle) + "|" + REPLICA + PrintAddress(a);
      ReadsReplica(head + middle, a);
  }

  lemma Assoc(a: string, b: string, c: string)
    ensures (a + b) + c == a + (b + c)
  {
  }

  lemma LocationShape(primary: Address, form: Form, replica: Option<Address>)
    ensures PrintLocation(primary, form, replica)
            == "SS:" + PrintAddress(primary) + (PrintForm(form) + PrintReplica(replica))
    ensures var rest := PrintForm(form) + PrintReplica(replica); rest != "" ==> rest[0] == '|'
  {
    Assoc("SS:" + PrintAddress(primary), PrintForm(form), PrintReplica(replica));
  }

  /** The client recovers both addresses from every form the name server prints, unless a command
      text smuggles in the replica tag. */
  lemma LocationRoundTrip(primary: Address, form: Form, replica: Option<Address>)
    requires ValidAddress(primary) && (replica.Some? ==> ValidAddress(replica.value))
    requires form.Command? ==> !Contains(form.text, REPLICA)
    requires |PrintLocation(primary, form, replica)| < BUFFER_SIZE
    ensures ParseSsInfo(PrintLocation(primary, form, replica)) == Wanted(primary, replica)
  {
    LocationShape(primary, form, replica);
    ReadsPrimary(primary, PrintForm(form) + PrintReplica(replica));
    ReadsForm(primary, form, replica);
  }

  // ----- the excluded commands are exactly the bad ones -----

  lemma {:induction false} FindInFirst(s: string, pat: string, more: string)
    requires Contains(s, pat)
    ensures Find(s, pat) + |pat| <= |s|
    ensures Find(s + more, pat) == Find(s, pat)
  {
    if |pat| <= |s| && s[..|pat|] == pat {
      assert (s + more)[..|pat|] == pat;
    } else {
      var i: nat :| i <= |s| && At(s, pat, i);
      assert i > 0;
      assert At(s[1..], pat, i - 1) by {
        assert s[1..][i - 1..i - 1 + |pat|] == s[i..i + |pat|];
      }
      assert (s + more)[1..] == s[1..] + more;
      assert (s + more)[..|pat|] == s[..|pat|];
      FindInFirst(s[1..], pat, more);
    }
  }

  lemma {:induction false} SpanNotInside(x: string, stop: char, more: string)
    requires !Avoids(x, stop)
    ensures SpanNot(x, stop) < |x| && SpanNot(x + more, stop) == SpanNot(x, stop)
  {
    if x[0] != stop {
      assert (x + more)[1..] == x[1..] + more;
      var i :| 0 <= i < |x| && x[i] == stop;
      assert x[1..][i - 1] == stop;
      SpanNotInside(x[1..], stop, more);
    }
  }

  /** The ip that the conversion finds in the text after a tag is fixed by what comes before a colon. */
  lemma IpFixed(x: string, more: string)
    requires !Avoids(x, ':')
    ensures ScanIp(x + more) == ScanIp(x)
  {
    SpanNotInside(x, ':', more);
    var n := if SpanNot(x, ':') <= IP_WIDTH then SpanNot(x, ':') else IP_WIDTH;
    assert (x + more)[..n] == x[..n];
  }

  lemma DropOfAppend(before: string, more: string, addr: string, start: nat)
    requires start <= |before|
    ensures (before + more + addr)[start..] == before[start..] + more + addr
  {
  }

  lemma TagColon(tag: string)
    requires tag != "" && tag[|tag| - 1] == ':'
    ensures ("|" + tag)[|"|" + tag| - 1] == ':'
  {
  }

  lemma EarlyTagWins(before: string, tag: string, addr: string)
    requires Contains(before, tag) && tag != "" && tag[|tag| - 1] == ':'
    ensures Find(before, tag) + |tag| <= |before|
    ensures ScanAddress(before + ("|" + tag) + addr, tag).0
            == ScanIp(before[Find(before, tag) + |tag|..] + ("|" + tag))
  {
    EarlyFind(before, tag, addr);
    var start := Find(before, tag) + |tag|;
    DropOfAppend(before, "|" + tag, addr, start);
    TagColon(tag);
    EarlyColon(before[start..], "|" + tag, addr);
  }

  lemma EarlyFind(before: string, tag: string, addr: string)
    requires Contains(before, tag)
    ensures Find(before, tag) + |tag| <= |before|
    ensures Find(before + ("|" + tag) + addr, tag) == Find(before, tag)
  {
    FindInFirst(before, tag, ("|" + tag) + addr);
    Assoc(before, "|" + tag, addr);
  }

  lemma EarlyTagSame(before: string, tag: string, addr1: string, addr2: string)
    requires Contains(before, tag) && tag != "" && tag[|tag| - 1] == ':'
    ensures ScanAddress(before + ("|" + tag) + addr1, tag).0 == ScanAddress(before + ("|" + tag) + addr2, tag).0
  {
    EarlyTagWins(before, tag, addr1);
    EarlyTagWins(before, tag, addr2);
  }

  lemma EarlyColon(x: string, more: string, addr: string)
    requires more != "" && more[|more| - 1] == ':'
    ensures ScanIp(x + more + addr) == ScanIp(x + more)
  {
    assert (x + more)[|x| + |more| - 1] == more[|more| - 1];
    IpFixed(x + more, addr);
  }

  lemma TagInForm(head: string, text: string)
    requires Contains(text, REPLICA)
    ensures Contains(head + text, REPLICA)
  {
    var i: nat :| i <= |text| && At(text, REPLICA, i);
    assert (head + text)[|head| + i..|head| + i + |REPLICA|] == text[i..i + |REPLICA|];
    assert At(head + text, REPLICA, |head| + i);
  }

  lemma CommandShape(primary: Address, text: string, a: Address)
    requires Contains(text, REPLICA)
    ensures var before := "SS:" + PrintAddress(primary) + PrintForm(Command(text));
            && Contains(before, REPLICA)
            && PrintLocation(primary, Command(text), Some(a)) == before + ("|" + REPLICA) + PrintAddress(a)
  {
    var head := "SS:" + PrintAddress(primary);
    Assoc(head, "|CMD:", text);
    TagInForm(head + "|CMD:", text);
    Assoc(head + PrintForm(Command(text)), "|" + REPLICA, PrintAddress(a));
  }

  /** With the tag in the command, the ip read for the replica does not depend on the replica. */
  lemma CommandDecidesIp(primary: Address, text: string, a1: Address, a2: Address)
    requires Contains(text, REPLICA)
    ensures ScanAddress(PrintLocation(primary, Command(text), Some(a1)), REPLICA).0
         == ScanAddress(PrintLocation(primary, Command(text), Some(a2)), REPLICA).0
  {
    CommandShape(primary, text, a1);
    CommandShape(primary, text, a2);
    var before := "SS:" + PrintAddress(primary) + PrintForm(Command(text));
    EarlyTagSame(before, REPLICA, PrintAddress(a1), PrintAddress(a2));
  }

  lemma WantedIp(data: string, primary: Address, a: Address)
    requires |data| < BUFFER_SIZE && ScanAddress(data, REPLICA).0 != Some(a.ip)
    ensures ParseSsInfo(data) != Wanted(primary, Some(a))
  {
  }

  /** ... so two replicas with different ips cannot both be recovered. */
  lemma CommandHidesReplica(primary: Address, text: string, a1: Address, a2: Address)
    requires Contains(text, REPLICA) && a1.ip != a2.ip
    requires |PrintLocation(primary, Command(text), Some(a1))| < BUFFER_SIZE
    requires |PrintLocation(primary, Command(text), Some(a2))| < BUFFER_SIZE
    ensures ParseSsInfo(PrintLocation(primary, Command(text), Some(a1))) != Wanted(primary, Some(a1))
         || ParseSsInfo(PrintLocation(primary, Command(text), Some(a2))) != Wanted(primary, Some(a2))
  {
    CommandDecidesIp(primary, text, a1, a2);
    var d1, d2 := PrintLocation(primary, Command(text), Some(a1)), PrintLocation(primary, Command(text), Some(a2));
    if ScanAddress(d1, REPLICA).0 != Some(a1.ip) {
      WantedIp(d1, primary, a1);
    } else {
      WantedIp(d2, primary, a2);
    }
  }

  predicate FormFits(primary: Address, text: string, a: Address) {
    ValidAddress(a) && |PrintLocation(primary, Command(text), Some(a))| < BUFFER_SIZE
  }

  const LOW: Address := Address("127.0.0.1", 9001)
  const HIGH: Address := Address("127.0.0.2", 9001)

  /** The replica behind a command is recovered for every replica address exactly when the command
      does not contain the replica tag. */
  lemma CommandIsSafe(primary: Address, text: string)
    requires ValidAddress(primary)
    requires FormFits(primary, text, LOW) && FormFits(primary, text, HIGH)
    ensures (forall a :: FormFits(primary, text, a)
                         ==> ParseSsInfo(PrintLocation(primary, Command(text), Some(a))) == Wanted(primary, Some(a)))
            <==> !Contains(text, REPLICA)
  {
    if Contains(text, REPLICA) {
      CommandHidesReplica(primary, text, LOW, HIGH);
    } else {
      forall a | FormFits(primary, text, a)
        ensures ParseSsInfo(PrintLocation(primary, Command(text), Some(a))) == Wanted(primary, Some(a))
      {
        LocationRoundTrip(primary, Command(text), Some(a));
      }
    }
  }

  // ----- one replica that is hidden -----

  lemma {:induction false} FindAfter(head: string, text: string)
    requires Avoids(head, 'R') && Contains(text, REPLICA)
    ensures Find(head + text, REPLICA) == |head| + Find(text, REPLICA)
  {
    if head == "" {
      assert head + text == text;
    } else {
      assert (head + text)[0] != 'R' && (head + text)[1..] == head[1..] + text;
      FindAfter(head[1..], text);
    }
  }

  lemma IpStarts(s: string)
    requires s != "" && s[0] != ':'
    ensures ScanIp(s).Some? && ScanIp(s).value != "" && ScanIp(s).value[0] == s[0]
  {
  }

  /** The text of the command behind the first replica tag in it. */
  function BehindTag(text: string): string
    requires Contains(text, REPLICA)
  {
    FindInFirst(text, REPLICA, "");
    text[Find(text, REPLICA) + |REPLICA|..]
  }

  lemma HeadOfCommand(primary: Address, text: string)
    requires ValidAddress(primary) && Contains(text, REPLICA)
    ensures var before := "SS:" + PrintAddress(primary) + PrintForm(Command(text));
            && Find(before, REPLICA) + |REPLICA| <= |before|
            && before[Find(before, REPLICA) + |REPLICA|..] == BehindTag(text)
  {
    var head := "SS:" + PrintAddress(primary) + "|CMD:";
    HeadAvoids(primary);
    FindInFirst(text, REPLICA, "");
    FindAfter(head, text);
    Assoc("SS:" + PrintAddress(primary), "|CMD:", text);
  }

  /** Whatever stands behind the tag in the command is taken for the replica's ip, so no replica whose
      ip starts differently is recovered. */
  lemma CommandShadows(primary: Address, text: string, a: Address)
    requires ValidAddress(primary) && FormFits(primary, text, a)
    requires Contains(text, REPLICA) && BehindTag(text) != "" && BehindTag(text)[0] != ':'
    requires BehindTag(text)[0] != a.ip[0]
    ensures ParseSsInfo(PrintLocation(primary, Command(text), Some(a))) != Wanted(primary, Some(a))
  {
    var before := "SS:" + PrintAddress(primary) + PrintForm(Command(text));
    CommandShape(primary, text, a);
    EarlyTagWins(before, REPLICA, PrintAddress(a));
    HeadOfCommand(primary, text);
    IpStarts(BehindTag(text) + ("|" + REPLICA));
    WantedIp(PrintLocation(primary, Command(text), Some(a)), primary, a);
  }
}
