/** The URL/date aggregator of URLReport.java: a DateNode per day holding a
    map from URL string to URL record, the days kept in a doubly linked list
    sorted by date, and a map from date to node for lookup. */
module Report {
  import opened Options
  import opened JavaString
  import opened URLs
  import opened Dates

  // ---------------------------------------------------------------------
  // Parsing one input line

  /** The part of addURL before any state is touched: split on '|', parse
      the trimmed first field as a long and trim the second field. Every
      exception on the way (no field, no second field, not a long) is None. */
  function ParseLine(inputLine: string): (r: Option<(Long, string)>)
    ensures r.Some? ==> Trim(r.value.1) == r.value.1
  {
    var data := Split(inputLine);
    if |data| == 0 then None
    else
      match ParseLong(Trim(data[0]))
      case None => None
      case Some(timestamp) =>
        if |data| < 2 then None
        else
          var urlString := Trim(data[1]);
          TrimKeepsTrimmed(urlString);
          Some((timestamp, urlString))
  }

  /** The (date, URL) count that addURL raises for a line, or None when
      addURL returns false: the line does not parse, or the URL constructor
      throws because normalizeURL does. */
  /** The key under which addURL counts a hit for `urlString` on day
      `date`, or None when the URL constructor throws. */
  function HitKey(date: int, urlString: string): (r: Option<(int, string)>)
    ensures r.Some? <==> NewURL(urlString).Some?
    ensures r.Some? ==> r.value == (date, urlString)
  {
    if NormalizeURL(urlString).Some? then Some((date, urlString)) else None
  }

  function LineKey(inputLine: string): (r: Option<(int, string)>)
    ensures r.Some? <==> ParseLine(inputLine).Some? && NewURL(ParseLine(inputLine).value.1).Some?
    ensures r.Some? ==> r.value == (NormalizeDate(ParseLine(inputLine).value.0), ParseLine(inputLine).value.1)
  {
    match ParseLine(inputLine)
    case None => None
    case Some((timestamp, urlString)) => HitKey(NormalizeDate(timestamp), urlString)
  }

  /** A well-formed line "<timestamp>|<url>", optionally followed by further
      '|'-separated fields, parses back to its timestamp and URL. */
  lemma ParseLineRoundTrip(timestamp: Long, urlString: string, rest: string)
    requires urlString != [] && '|' !in urlString
    requires urlString[0] > ' ' && urlString[|urlString| - 1] > ' '
    ensures ParseLine(LongToString(timestamp) + "|" + urlString) == Some((timestamp, urlString))
    ensures ParseLine(LongToString(timestamp) + "|" + urlString + "|" + rest) == Some((timestamp, urlString))
  {
    var ts := LongToString(timestamp);
    LongToStringShape(timestamp);
    SplitTwoFields(ts, urlString, rest);
    ParseFields(ts + "|" + urlString, timestamp, urlString);
    ParseFields(ts + "|" + urlString + "|" + rest, timestamp, urlString);
  }

  lemma ParseFields(line: string, timestamp: Long, urlString: string)
    requires |Split(line)| >= 2 && Split(line)[0] == LongToString(timestamp) && Split(line)[1] == urlString
    requires urlString == [] || (urlString[0] > ' ' && urlString[|urlString| - 1] > ' ')
    requires LongToString(timestamp)[0] > ' ' && LongToString(timestamp)[|LongToString(timestamp)| - 1] > ' '
    ensures ParseLine(line) == Some((timestamp, urlString))
  {
    ParseLongOfToString(timestamp);
    TrimKeepsTrimmed(LongToString(timestamp));
    TrimKeepsTrimmed(urlString);
  }

  lemma SplitTwoFields(x: string, u: string, rest: string)
    requires '|' !in x && '|' !in u && u != []
    ensures Split(x + "|" + u) == [x, u]
    ensures var r := Split(x + "|" + u + "|" + rest); |r| >= 2 && r[0] == x && r[1] == u
  {
    SplitExactlyTwo(x, u);
    SplitFirstTwo(x, u, rest);
  }

  lemma SplitExactlyTwo(x: string, u: string)
    requires '|' !in x && '|' !in u && u != []
    ensures Split(x + "|" + u) == [x, u]
  {
    PiecesWithoutSeparator(u);
    PiecesAfterSeparator(x, u);
    var line := x + "|" + u;
    assert line[|x|] == '|';
    assert Pieces(line) == [x, u];
  }

  lemma SplitFirstTwo(x: string, u: string, rest: string)
    requires '|' !in x && '|' !in u && u != []
    ensures var r := Split(x + "|" + u + "|" + rest); |r| >= 2 && r[0] == x && r[1] == u
  {
    PiecesAfterSeparator(u, rest);
    PiecesAfterSeparator(x, u + "|" + rest);
    var line := x + "|" + u + "|" + rest;
    assert line == x + "|" + (u + "|" + rest);
    assert line[|x|] == '|';
    var pieces := Pieces(line);
    assert pieces == [x] + ([u] + Pieces(rest));
    assert pieces[0] == x && pieces[1] == u;
    var r := DropTrailingEmpty(pieces);
    assert |r| >= 2;
    assert r[0] == pieces[0] && r[1] == pieces[1];
  }

  lemma LongToStringShape(n: Long)
    ensures LongToString(n) != [] && '|' !in LongToString(n)
    ensures LongToString(n)[0] > ' ' && LongToString(n)[|LongToString(n)| - 1] > ' '
  {
    var d := DecimalString(if n < 0 then -(n as int) else n);
    assert forall i :: 0 <= i < |d| ==> IsDigit(d[i]);
    if n < 0 {
      assert LongToString(n) == "-" + d;
    }
  }

  /** A line without a second non-empty field is rejected: in particular
      "<timestamp>|", since split drops the trailing empty string. */
  lemma ParseLineNeedsSecondField(field: string)
    requires '|' !in field
    ensures ParseLine(field) == None
    ensures ParseLine(field + "|") == None
  {
    PiecesAfterSeparator(field, "");
    assert Pieces("") == [""];
    assert field + "|" == field + "|" + "";
    assert (field + "|")[|field|] == '|';
  }

  /** A line whose first field is not a long is rejected, whatever follows. */
  lemma ParseLineRejectsBadTimestamp(x: string, y: string)
    requires '|' !in x && ParseLong(Trim(x)).None?
    ensures ParseLine(x) == None
    ensures ParseLine(x + "|" + y) == None
  {
    PiecesWithoutSeparator(x);
    PiecesAfterSeparator(x, y);
    var line := x + "|" + y;
    assert line[|x|] == '|';
    var data := DropTrailingEmpty([x] + Pieces(y));
    assert data == [] || data[0] == x;
  }

  /** A line whose first field is followed only by bars has no second field
      once split drops the trailing empty strings, so it is rejected. */
  lemma ParseLineRejectsNoSecondField(x: string, y: string)
    requires '|' !in x && forall i :: 0 <= i < |y| ==> y[i] == '|'
    ensures ParseLine(x + "|" + y) == None
  {
    PiecesAfterSeparator(x, y);
    PiecesOfBars(y);
    var line := x + "|" + y;
    assert line[|x|] == '|';
    var pieces := [x] + Pieces(y);
    assert forall k :: 1 <= k < |pieces| ==> pieces[k] == "";
    var data := DropTrailingEmpty(pieces);
    assert |data| <= 1;
  }

  /** Every piece of a string made only of bars is empty. */
  lemma {:induction false} PiecesOfBars(y: string)
    requires forall i :: 0 <= i < |y| ==> y[i] == '|'
    ensures forall k :: 0 <= k < |Pieces(y)| ==> Pieces(y)[k] == ""
    decreases |y|
  {
    if |y| > 0 {
      PiecesOfBars(y[1..]);
    }
  }

  /** As written, a line whose URL is "www." parses but is rejected, because
      the URL constructor's normalizeURL throws. */
  lemma LineKeyRejectsBareWww(timestamp: Long)
    ensures ParseLine(LongToString(timestamp) + "|" + "www.") == Some((timestamp, "www."))
    ensures LineKey(LongToString(timestamp) + "|" + "www.") == None
  {
    ParseLineRoundTrip(timestamp, "www.", "");
    NormalizeURLThrowsOnBarePrefix();
  }

  // ---------------------------------------------------------------------
  // DateNode

  /** One line of the daily report: a date and its URLs in printed order. */
  datatype DayReport = DayReport(date: int, urls: seq<URL>)

  /** `r` is what printURLStats gives for the node `n`. */
  ghost predicate ReportsDay(n: DateNode, r: DayReport)
    reads n`urlMap
  {
    r.date == n.date && SortedListing(n.urlMap, r.urls)
  }

  class DateNode {
    const date: int
    var urlMap: map<string, URL>
    var prev: DateNode?
    var next: DateNode?

    constructor (date: int)
      ensures this.date == date && urlMap == map[] && prev == null && next == null
    {
      this.date := date;
      urlMap := map[];
      prev, next := null, null;
    }

    /** Each key maps to its own record, counted at least once. */
    ghost predicate Wellformed()
      reads this`urlMap
    {
      forall u :: u in urlMap ==> urlMap[u].urlString == u && urlMap[u].hitCount >= 1
    }

    /** Each key is a string the URL constructor accepts. */
    ghost predicate Constructed()
      reads this`urlMap
    {
      forall u {:trigger NormalizeURL(u)} :: u in urlMap ==> NormalizeURL(u).Some?
    }

    /** The hit count of a URL string on this day, 0 if absent. */
    function Count(urlString: string): int
      reads this`urlMap
    {
      if urlString in urlMap then urlMap[urlString].hitCount else 0
    }

    /** DateNode.compareTo: the sign of the date difference. */
    function CompareTo(other: DateNode): (c: int)
      ensures c < 0 <==> date < other.date
      ensures c == 0 <==> date == other.date
      ensures c > 0 <==> date > other.date
    {
      if date < other.date then -1 else if date > other.date then 1 else 0
    }

    /** setOrIncrementURL: one more hit for an existing key, or a new URL
        with count 1. `ok` is false where the URL constructor throws. */
    method SetOrIncrementURL(urlString: string) returns (ok: bool)
      requires Wellformed() && Constructed()
      modifies this`urlMap
      ensures Wellformed() && Constructed()
      ensures ok <==> urlString in old(urlMap) || NormalizeURL(urlString).Some?
      ensures ok ==> Count(urlString) == old(Count(urlString)) + 1
      ensures ok ==> urlMap == old(urlMap)[urlString := URL(urlString, old(Count(urlString)) + 1)]
      ensures !ok ==> urlMap == old(urlMap)
    {
      if urlString in urlMap {
        var url := urlMap[urlString];
        urlMap := urlMap[urlString := url.(hitCount := url.hitCount + 1)];
        ok := true;
      } else {
        var url := NewURL(urlString);
        if url.None? {
          return false;
        }
        urlMap := urlMap[urlString := url.value];
        ok := true;
      }
    }

    /** printURLStats: every URL record goes into a priority queue ordered by
        the selected comparator, which is then drained from its least element. */
    method PrintURLStats() returns (emitted: seq<URL>)
      requires Wellformed()
      requires urlMap != map[]
      ensures SortedListing(urlMap, emitted)
    {
      // Offer every record of the map to the queue.
      var pool: seq<URL> := [];
      var rest := urlMap.Keys;
      while rest != {}
        invariant rest <= urlMap.Keys
        invariant forall u :: u in urlMap && u !in rest ==> urlMap[u] in pool
        invariant forall i :: 0 <= i < |pool| ==>
          pool[i].urlString in urlMap && urlMap[pool[i].urlString] == pool[i] && pool[i].urlString !in rest
        invariant forall i, j :: 0 <= i < j < |pool| ==> pool[i] != pool[j]
        decreases rest
      {
        var u :| u in rest;
        pool := pool + [urlMap[u]];
        rest := rest - {u};
      }
      // Take the least record until the queue is empty.
      emitted := DrainQueue(pool);
      forall i | 0 <= i < |emitted|
        ensures emitted[i].urlString in urlMap && urlMap[emitted[i].urlString] == emitted[i]
      {
        assert emitted[i] in pool;
      }
    }
  }

  // ---------------------------------------------------------------------
  // URLReport

  /** Strictly ascending dates; in particular no node occurs twice. */
  ghost predicate Ascending(ns: seq<DateNode>) {
    forall i, j :: 0 <= i < j < |ns| ==> ns[i].date < ns[j].date
  }

  /** Placing a node between its date neighbours keeps the dates ascending. */
  lemma AscendingInsert(ns: seq<DateNode>, k: nat, node: DateNode)
    requires Ascending(ns) && k <= |ns|
    requires k > 0 ==> ns[k - 1].date < node.date
    requires k < |ns| ==> node.date < ns[k].date
    ensures Ascending(ns[..k] + [node] + ns[k..])
  {
    var r := ns[..k] + [node] + ns[k..];
    forall a, b | 0 <= a < b < |r|
      ensures r[a].date < r[b].date
    {
      if b < k {
        assert r[a] == ns[a] && r[b] == ns[b];
      } else if b == k {
        assert r[a] == ns[a] && ns[a].date <= ns[k - 1].date;
      } else if a == k {
        assert r[b] == ns[b - 1] && ns[k].date <= ns[b - 1].date;
      } else if a < k {
        assert r[a] == ns[a] && r[b] == ns[b - 1];
      } else {
        assert r[a] == ns[a - 1] && r[b] == ns[b - 1];
      }
    }
  }

  /** The node after position i of `ns`, null past the end. */
  function Successor(ns: seq<DateNode>, i: int): DateNode?
    requires 0 <= i < |ns|
  {
    if i + 1 < |ns| then ns[i + 1] else null
  }

  /** The node before position i of `ns`, null at the start. */
  function Predecessor(ns: seq<DateNode>, i: int): DateNode?
    requires 0 <= i < |ns|
  {
    if i > 0 then ns[i - 1] else null
  }

  /** Every _next and _prev pointer agrees with the order of `ns`. */
  ghost predicate Chained(ns: seq<DateNode>)
    reads ns`next, ns`prev
  {
    forall i {:trigger Successor(ns, i)} {:trigger Predecessor(ns, i)} ::
      0 <= i < |ns| ==> ns[i].next == Successor(ns, i) && ns[i].prev == Predecessor(ns, i)
  }

  /** The links after `dateNode` is spliced in behind position i of `s`:
      the two neighbours and the new node point at each other and every
      other node keeps its links. */
  lemma ChainedAfterSplice(s: seq<DateNode>, i: nat, dateNode: DateNode)
    requires i < |s|
    requires forall j :: 0 <= j < |s| && j != i && j != i + 1 ==>
      s[j].next == Successor(s, j) && s[j].prev == Predecessor(s, j)
    requires s[i].next == dateNode && s[i].prev == Predecessor(s, i)
    requires dateNode.prev == s[i] && dateNode.next == Successor(s, i)
    requires i + 1 < |s| ==> s[i + 1].prev == dateNode && s[i + 1].next == Successor(s, i + 1)
    ensures Chained(s[..i + 1] + [dateNode] + s[i + 1..])
  {
    var r := s[..i + 1] + [dateNode] + s[i + 1..];
    forall j | 0 <= j < |r|
      ensures r[j].next == Successor(r, j) && r[j].prev == Predecessor(r, j)
    {
      if j < i {
        assert r[j] == s[j] && Successor(s, j) == Successor(r, j) && Predecessor(s, j) == Predecessor(r, j);
      } else if j == i {
        assert r[j] == s[i] && Predecessor(s, i) == Predecessor(r, i);
      } else if j == i + 2 {
        assert r[j] == s[i + 1] && Successor(s, i + 1) == Successor(r, j);
      } else if j > i + 2 {
        assert r[j] == s[j - 1] && Successor(s, j - 1) == Successor(r, j) && Predecessor(s, j - 1) == Predecessor(r, j);
      }
    }
  }

  /** The links after `dateNode` is placed in front of a nonempty `s`. */
  lemma ChainedAfterPrepend(s: seq<DateNode>, dateNode: DateNode)
    requires |s| > 0
    requires forall j :: 0 < j < |s| ==> s[j].next == Successor(s, j) && s[j].prev == Predecessor(s, j)
    requires s[0].prev == dateNode && s[0].next == Successor(s, 0)
    requires dateNode.prev == null && dateNode.next == s[0]
    ensures Chained([dateNode] + s)
  {
    var r := [dateNode] + s;
    forall j | 0 < j < |r|
      ensures r[j].next == Successor(r, j) && r[j].prev == Predecessor(r, j)
    {
      assert r[j] == s[j - 1] && Successor(s, j - 1) == Successor(r, j);
    }
  }

  /** The nodes of a list with one node inserted are the old ones and it. */
  lemma InsertedMembers(s: seq<DateNode>, k: nat, x: DateNode)
    requires k <= |s|
    ensures forall n :: n in s[..k] + [x] + s[k..] <==> n in s || n == x
  {
    var r := s[..k] + [x] + s[k..];
    forall n | n in r
      ensures n in s || n == x
    {
      var j :| 0 <= j < |r| && r[j] == n;
      if j < k {
        assert n == s[j];
      } else if j > k {
        assert n == s[j - 1];
      }
    }
    forall n | n in s
      ensures n in r
    {
      var j :| 0 <= j < |s| && s[j] == n;
      if j < k {
        assert r[j] == n;
      } else {
        assert r[j + 1] == n;
      }
    }
  }

  /** The (date, URL) keys of the lines addURL accepts, with multiplicity. */
  function AcceptedKeys(lines: seq<string>): multiset<(int, string)>
  {
    if lines == [] then multiset{}
    else
      var last := lines[|lines| - 1];
      AcceptedKeys(lines[..|lines| - 1]) + (if LineKey(last).Some? then multiset{LineKey(last).value} else multiset{})
  }

  /** One more line: its key joins the accepted ones or the line joins the
      rejected ones. */
  lemma AcceptedStep(lines: seq<string>, i: nat, key: (int, string))
    requires i < |lines|
    ensures AcceptedKeys(lines[..i + 1])[key] ==
      AcceptedKeys(lines[..i])[key] + (if LineKey(lines[i]) == Some(key) then 1 else 0)
  {
    assert lines[..i + 1][..i] == lines[..i];
  }

  /** One line of the read loop, on count snapshots: if the counts before
      the line are the start counts plus the accepted keys so far, and the
      line raises exactly its own key, then the counts after it are the
      start counts plus the accepted keys including that line. */
  lemma CountsStep(lines: seq<string>, i: nat, start: imap<(int, string), int>,
                   before: imap<(int, string), int>, after: imap<(int, string), int>)
    requires i < |lines|
    requires forall d, u :: (d, u) in start && (d, u) in before && (d, u) in after
    requires forall d, u :: before[(d, u)] == start[(d, u)] + AcceptedKeys(lines[..i])[(d, u)]
    requires forall d, u :: after[(d, u)] == before[(d, u)] + (if LineKey(lines[i]) == Some((d, u)) then 1 else 0)
    ensures forall d, u :: after[(d, u)] == start[(d, u)] + AcceptedKeys(lines[..i + 1])[(d, u)]
  {
    forall d, u
      ensures after[(d, u)] == start[(d, u)] + AcceptedKeys(lines[..i + 1])[(d, u)]
    {
      AcceptedStep(lines, i, (d, u));
    }
  }

  lemma RejectedStep(lines: seq<string>, i: nat)
    requires i < |lines|
    ensures LineKey(lines[i]).Some? ==> RejectedLines(lines[..i + 1]) == RejectedLines(lines[..i])
    ensures LineKey(lines[i]).None? ==> RejectedLines(lines[..i + 1]) == RejectedLines(lines[..i]) + [lines[i]]
  {
    assert lines[..i + 1][..i] == lines[..i];
  }

  /** The lines addURL rejects, in input order. */
  function RejectedLines(lines: seq<string>): seq<string>
  {
    if lines == [] then []
    else
      var last := lines[|lines| - 1];
      RejectedLines(lines[..|lines| - 1]) + (if LineKey(last).None? then [last] else [])
  }

  /** Every line is either accepted, its key counted once, or rejected and
      listed. */
  lemma {:induction false} LinesPartition(lines: seq<string>)
    ensures |AcceptedKeys(lines)| + |RejectedLines(lines)| == |lines|
  {
    if lines != [] {
      LinesPartition(lines[..|lines| - 1]);
    }
  }

  /** The rejected lines are exactly the lines addURL cannot parse. */
  lemma {:induction false} RejectedLinesExact(lines: seq<string>)
    ensures forall l :: l in RejectedLines(lines) <==> l in lines && LineKey(l).None?
  {
    if lines != [] {
      var init := lines[..|lines| - 1];
      RejectedLinesExact(init);
      assert lines == init + [lines[|lines| - 1]];
    }
  }

  /** Every accepted key is the key of one of the lines. */
  lemma {:induction false} AcceptedKeysSound(lines: seq<string>)
    ensures forall k :: k in AcceptedKeys(lines) ==> exists l :: l in lines && LineKey(l) == Some(k)
  {
    if lines != [] {
      var init := lines[..|lines| - 1];
      var last := lines[|lines| - 1];
      AcceptedKeysSound(init);
      forall k | k in AcceptedKeys(lines)
        ensures exists l :: l in lines && LineKey(l) == Some(k)
      {
        if k in AcceptedKeys(init) {
          var l :| l in init && LineKey(l) == Some(k);
          assert l in lines;
        } else {
          assert LineKey(last) == Some(k) && last in lines;
        }
      }
    }
  }

  /** The key of every line addURL parses is among the accepted keys. */
  lemma {:induction false} AcceptedKeysComplete(lines: seq<string>)
    ensures forall l :: l in lines && LineKey(l).Some? ==> LineKey(l).value in AcceptedKeys(lines)
  {
    if lines != [] {
      var init := lines[..|lines| - 1];
      AcceptedKeysComplete(init);
      assert lines == init + [lines[|lines| - 1]];
    }
  }

  /** A report with one entry per list node, in list order, lists every day
      of a date map that agrees with the list, and only those. */
  lemma DaysListed(dateMap: map<int, DateNode>, nodes: seq<DateNode>, report: seq<DayReport>)
    requires |report| == |nodes| && Ascending(nodes)
    requires forall j :: 0 <= j < |nodes| ==> ReportsDay(nodes[j], report[j])
    requires forall n :: n in nodes ==> n.date in dateMap && dateMap[n.date] == n
    requires forall d :: d in dateMap ==> dateMap[d] in nodes && dateMap[d].date == d
    ensures forall i, j :: 0 <= i < j < |report| ==> report[i].date < report[j].date
    ensures forall d :: d in dateMap ==> exists i :: 0 <= i < |report| && report[i].date == d
    ensures forall i :: 0 <= i < |report| ==>
      report[i].date in dateMap && SortedListing(dateMap[report[i].date].urlMap, report[i].urls)
  {
    forall d | d in dateMap
      ensures exists j :: 0 <= j < |report| && report[j].date == d
    {
      var k :| 0 <= k < |nodes| && nodes[k] == dateMap[d];
      assert report[k].date == d;
    }
    forall j | 0 <= j < |report|
      ensures report[j].date in dateMap && dateMap[report[j].date] == nodes[j]
    {
      assert nodes[j] in nodes;
    }
  }

  class URLReport {
    var dateMap: map<int, DateNode>
    var head: DateNode?
    /** The list from `head`, in order. */
    ghost var nodes: seq<DateNode>

    /** The list structure: `head` starts it and the links follow `nodes`. */
    ghost predicate Linked()
      reads this`head, this`nodes, nodes`next, nodes`prev
    {
      (if nodes == [] then head == null else head == nodes[0]) &&
      Ascending(nodes) && Chained(nodes)
    }

    /** dateMap and the list hold the same nodes, each under its own date. */
    ghost predicate Indexed()
      reads this`dateMap, this`nodes, nodes`urlMap
    {
      (forall n {:trigger n in nodes} :: n in nodes ==> n.date in dateMap && dateMap[n.date] == n && n.Wellformed() && n.Constructed() && n.urlMap != map[]) &&
      (forall d :: d in dateMap ==> dateMap[d] in nodes && dateMap[d].date == d)
    }

    ghost predicate Valid()
      reads this, nodes
    {
      Linked() && Indexed()
    }

    /** The hit count of `urlString` on day `date`, 0 if absent. */
    ghost function HitCount(date: int, urlString: string): int
      reads this`dateMap, dateMap.Values`urlMap
    {
      if date in dateMap then dateMap[date].Count(urlString) else 0
    }

    /** Every count at once, as a value that later updates do not change. */
    ghost function Counts(): (m: imap<(int, string), int>)
      reads this`dateMap, dateMap.Values`urlMap
      ensures forall d, u {:trigger HitCount(d, u)} :: (d, u) in m && m[(d, u)] == HitCount(d, u)
    {
      imap k: (int, string) | true :: HitCount(k.0, k.1)
    }

    constructor ()
      ensures Valid()
      ensures dateMap == map[] && head == null && nodes == []
      ensures forall d, u :: HitCount(d, u) == 0
    {
      dateMap := map[];
      head := null;
      nodes := [];
    }

    /** printDateStats: walk the list from `head`, reporting each day's URLs. */
    method PrintDateStats() returns (report: seq<DayReport>)
      requires Valid()
      ensures forall i, j :: 0 <= i < j < |report| ==> report[i].date < report[j].date
      ensures forall d :: d in dateMap ==> exists i :: 0 <= i < |report| && report[i].date == d
      ensures forall i :: 0 <= i < |report| ==>
        report[i].date in dateMap && SortedListing(dateMap[report[i].date].urlMap, report[i].urls)
    {
      report := [];
      var tmp := head;
      ghost var i := 0;
      while tmp != null
        invariant Chained(nodes)
        invariant forall n :: n in nodes ==> n.Wellformed() && n.urlMap != map[]
        invariant 0 <= i <= |nodes|
        invariant tmp == (if i < |nodes| then nodes[i] else null)
        invariant |report| == i
        invariant forall j :: 0 <= j < i ==> ReportsDay(nodes[j], report[j])
        decreases |nodes| - i
      {
        assert tmp.next == Successor(nodes, i);
        var urls := tmp.PrintURLStats();
        ghost var before := report;
        report := report + [DayReport(tmp.date, urls)];
        forall j | 0 <= j <= i
          ensures ReportsDay(nodes[j], report[j])
        {
          if j < i {
            assert report[j] == before[j];
          }
        }
        tmp := tmp.next;
        i := i + 1;
      }
      DaysListed(dateMap, nodes, report);
    }

    /** addURL: count one hit for the line's URL on the line's day, creating
        and linking the day's node when the day is new. `ok` is false, and
        nothing changes, when any step throws. */
    method AddURL(inputLine: string) returns (ok: bool)
      requires Valid()
      modifies this, nodes
      ensures Valid()
      ensures ok <==> LineKey(inputLine).Some?
      ensures forall d, u {:trigger HitCount(d, u)} :: HitCount(d, u) == old(HitCount(d, u)) + (if LineKey(inputLine) == Some((d, u)) then 1 else 0)
      ensures forall d, u :: Counts()[(d, u)] == old(Counts())[(d, u)] + (if LineKey(inputLine) == Some((d, u)) then 1 else 0)
      ensures dateMap.Keys == old(dateMap).Keys + (if ok then {LineKey(inputLine).value.0} else {})
      ensures !ok ==> dateMap == old(dateMap) && head == old(head) && nodes == old(nodes)
      ensures forall n :: n in nodes ==> n in old(nodes) || fresh(n)
    {
      var parsed := ParseLine(inputLine);
      if parsed.None? {
        return false;
      }
      var urlString := parsed.value.1;
      var date := NormalizeDate(parsed.value.0);
      assert LineKey(inputLine) == HitKey(date, urlString);
      ok := CountHit(date, urlString);
    }

    /** The read loop of main, with the file's lines given as a sequence:
        addURL on every line, in order, collecting the lines it rejects (main
        reports those on standard error and goes on). */
    method AddLines(lines: seq<string>) returns (rejected: seq<string>)
      requires Valid()
      modifies this, nodes
      ensures Valid()
      ensures rejected == RejectedLines(lines)
      ensures forall d, u {:trigger HitCount(d, u)} :: HitCount(d, u) == old(HitCount(d, u)) + AcceptedKeys(lines)[(d, u)]
    {
      rejected := [];
      var i := 0;
      ghost var start := Counts();
      assert AcceptedKeys(lines[..0]) == multiset{} by {
        assert lines[..0] == [];
      }
      while i < |lines|
        invariant 0 <= i <= |lines|
        invariant Valid()
        invariant forall n :: n in nodes ==> n in old(nodes) || fresh(n)
        invariant rejected == RejectedLines(lines[..i])
        invariant forall d, u :: Counts()[(d, u)] == start[(d, u)] + AcceptedKeys(lines[..i])[(d, u)]
      {
        assert forall j :: 0 <= j < |nodes| ==> nodes[j] in old(nodes) || fresh(nodes[j]);
        label BeforeLine:
        rejected := ReadLine(lines, i, rejected, start);
        forall n | n in nodes
          ensures n in old(nodes) || fresh(n)
        {
          if n in old@BeforeLine(nodes) {
            assert n in old(nodes) || fresh(n);
          }
        }
        i := i + 1;
      }
      assert lines[..i] == lines;
    }

    /** One turn of the read loop of main: addURL on line i, and the line
        joins the rejected ones when it fails. */
    method ReadLine(lines: seq<string>, i: nat, rejected: seq<string>, ghost start: imap<(int, string), int>)
      returns (rejectedNow: seq<string>)
      requires Valid() && i < |lines| && rejected == RejectedLines(lines[..i])
      requires forall d, u :: (d, u) in start
      requires forall d, u :: Counts()[(d, u)] == start[(d, u)] + AcceptedKeys(lines[..i])[(d, u)]
      modifies this, nodes
      ensures Valid()
      ensures rejectedNow == RejectedLines(lines[..i + 1])
      ensures forall d, u :: Counts()[(d, u)] == start[(d, u)] + AcceptedKeys(lines[..i + 1])[(d, u)]
      ensures forall n :: n in nodes ==> n in old(nodes) || fresh(n)
    {
      ghost var before := Counts();
      var ok := AddURL(lines[i]);
      CountsStep(lines, i, start, before, Counts());
      RejectedStep(lines, i);
      rejectedNow := rejected;
      if !ok {
        rejectedNow := rejectedNow + [lines[i]];
      }
    }

    /** The part of addURL after parsing: find or create the day's node and
        count the URL there. */
    method CountHit(date: int, urlString: string) returns (ok: bool)
      requires Valid()
      modifies this, nodes
      ensures Valid()
      ensures ok <==> HitKey(date, urlString).Some?
      ensures forall d, u {:trigger HitCount(d, u)} :: HitCount(d, u) == old(HitCount(d, u)) + (if HitKey(date, urlString) == Some((d, u)) then 1 else 0)
      ensures dateMap.Keys == old(dateMap).Keys + (if ok then {date} else {})
      ensures !ok ==> dateMap == old(dateMap) && head == old(head) && nodes == old(nodes)
      ensures forall n :: n in nodes ==> n in old(nodes) || fresh(n)
    {
      if date in dateMap {
        var dateNode := dateMap[date];
        ok := CountOnExistingDay(dateNode, urlString);
        assert dateMap.Keys + {date} == dateMap.Keys;
      } else {
        ok := CountOnNewDay(date, urlString);
      }
      forall d, u
        ensures HitCount(d, u) == old(HitCount(d, u)) + (if HitKey(date, urlString) == Some((d, u)) then 1 else 0)
      {
        if HitKey(date, urlString) == Some((d, u)) {
          assert ok && (d, u) == (date, urlString);
        } else {
          assert !(ok && (d, u) == (date, urlString));
        }
      }
    }

    /** The first branch of addURL: the day's node exists and its map is
        updated by setOrIncrementURL. */
    method CountOnExistingDay(dateNode: DateNode, urlString: string) returns (ok: bool)
      requires Valid() && dateNode.date in dateMap && dateMap[dateNode.date] == dateNode
      modifies dateNode`urlMap
      ensures Valid()
      ensures ok <==> NormalizeURL(urlString).Some?
      ensures forall d, u {:trigger HitCount(d, u)} :: HitCount(d, u) == old(HitCount(d, u)) + (if ok && (d, u) == (dateNode.date, urlString) then 1 else 0)
    {
      assert dateNode in nodes && dateNode.Wellformed() && dateNode.Constructed();
      ok := dateNode.SetOrIncrementURL(urlString);
      forall n | n in nodes
        ensures n.Wellformed() && n.Constructed() && n.urlMap != map[]
      {
        if n != dateNode {
          assert n.urlMap == old(n.urlMap);
        }
      }
      forall d, u | d in dateMap && d != dateNode.date
        ensures HitCount(d, u) == old(HitCount(d, u))
      {
        assert dateMap[d] != dateNode && dateMap[d].urlMap == old(dateMap[d].urlMap);
      }
    }

    /** The second branch of addURL: a node for a new day is created and
        counted into, then linked in; when the URL constructor throws,
        nothing else happens. */
    method CountOnNewDay(date: int, urlString: string) returns (ok: bool)
      requires Valid() && date !in dateMap
      modifies this`head, this`nodes, this`dateMap, nodes`next, nodes`prev
      ensures Valid()
      ensures ok <==> NormalizeURL(urlString).Some?
      ensures forall d, u {:trigger HitCount(d, u)} :: HitCount(d, u) == old(HitCount(d, u)) + (if ok && (d, u) == (date, urlString) then 1 else 0)
      ensures dateMap.Keys == old(dateMap).Keys + (if ok then {date} else {})
      ensures !ok ==> dateMap == old(dateMap) && head == old(head) && nodes == old(nodes)
      ensures forall n :: n in nodes ==> n in old(nodes) || fresh(n)
    {
      var dateNode := new DateNode(date);
      ok := dateNode.SetOrIncrementURL(urlString);
      if ok {
        label Counted:
        LinkNewDay(dateNode);
        forall d, u
          ensures HitCount(d, u) == old(HitCount(d, u)) + (if (d, u) == (date, urlString) then 1 else 0)
        {
          if d != date {
            assert HitCount(d, u) == old@Counted(HitCount(d, u));
            if d in old(dateMap) {
              assert old(dateMap[d]) != dateNode;
            }
          }
        }
      }
    }

    /** The rest of that branch: link the new day's node into the list and
        enter it in the date map. */
    method LinkNewDay(dateNode: DateNode)
      requires Valid() && dateNode.date !in dateMap && dateNode !in nodes
      requires dateNode.prev == null && dateNode.next == null && dateNode.Wellformed() && dateNode.Constructed()
      requires dateNode.urlMap != map[]
      modifies this`head, this`nodes, this`dateMap, nodes`next, nodes`prev, dateNode`next, dateNode`prev
      ensures Valid()
      ensures dateMap == old(dateMap)[dateNode.date := dateNode]
      ensures forall n :: n in nodes ==> n in old(nodes) || n == dateNode
      ensures forall d, u :: HitCount(d, u) == if d == dateNode.date then dateNode.Count(u) else old(HitCount(d, u))
    {
      ghost var k := InsertDateNodeOrdered(dateNode);
      InsertedMembers(old(nodes), k, dateNode);
      dateMap := dateMap[dateNode.date := dateNode];
      assert Indexed() by {
        forall n | n in nodes
          ensures n.date in dateMap && dateMap[n.date] == n && n.Wellformed() && n.Constructed() && n.urlMap != map[]
        {
          if n != dateNode {
            assert n in old(nodes);
          }
        }
        forall d | d in dateMap
          ensures dateMap[d] in nodes && dateMap[d].date == d
        {
          if d != dateNode.date {
            assert dateMap[d] in old(nodes);
          }
        }
      }
      forall d, u | d != dateNode.date && d in dateMap
        ensures HitCount(d, u) == old(HitCount(d, u))
      {
        assert dateMap[d].urlMap == old(dateMap[d].urlMap);
      }
    }

    /** insertDateNodeOrdered: link a node whose date is absent into the
        list, keeping it strictly ascending. */
    method InsertDateNodeOrdered(dateNode: DateNode) returns (ghost k: nat)
      requires Linked()
      requires dateNode !in nodes
      requires dateNode.prev == null && dateNode.next == null
      requires forall n :: n in nodes ==> n.date != dateNode.date
      modifies this`head, this`nodes, nodes`next, nodes`prev, dateNode`next, dateNode`prev
      ensures Linked()
      ensures k <= |old(nodes)| && nodes == old(nodes)[..k] + [dateNode] + old(nodes)[k..]
      ensures head != null && forall n :: n in nodes ==> head.date <= n.date
    {
      if head == null {
        head := dateNode;
        nodes := [dateNode];
        k := 0;
      } else if head.CompareTo(dateNode) > 0 {
        PushFront(dateNode);
        k := 0;
      } else {
        var tmp;
        ghost var i;
        tmp, i := FindPredecessor(dateNode);
        SpliceAfter(tmp, i, dateNode);
        k := i + 1;
      }
      assert nodes[0] == head;
    }

    /** The second case of insertDateNodeOrdered: a node dated before the
        head becomes the new head. */
    method PushFront(dateNode: DateNode)
      requires Linked() && nodes != [] && dateNode.date < nodes[0].date
      requires dateNode !in nodes && dateNode.prev == null && dateNode.next == null
      modifies this`head, this`nodes, nodes`prev, dateNode`next
      ensures Linked()
      ensures nodes == [dateNode] + old(nodes)
    {
      ghost var s := nodes;
      head.prev := dateNode;
      dateNode.next := head;
      head := dateNode;
      nodes := [dateNode] + nodes;
      assert Chained(nodes) by {
        forall j | 0 < j < |s|
          ensures s[j].next == Successor(s, j) && s[j].prev == Predecessor(s, j)
        {
          assert s[j] != s[0];
          assert old(s[j].prev) == Predecessor(s, j);
        }
        assert old(s[0].next) == Successor(s, 0);
        ChainedAfterPrepend(s, dateNode);
      }
      assert Ascending(nodes) by {
        AscendingInsert(s, 0, dateNode);
        assert s[..0] + [dateNode] + s[0..] == nodes;
      }
    }

    /** The loop of insertDateNodeOrdered: walking `_next` from `head`, the
        last node dated before `date`. */
    method FindPredecessor(dateNode: DateNode) returns (tmp: DateNode, ghost i: nat)
      requires Linked() && nodes != [] && nodes[0].date < dateNode.date
      requires forall n :: n in nodes ==> n.date != dateNode.date
      ensures i < |nodes| && tmp == nodes[i]
      ensures nodes[i].date < dateNode.date
      ensures i + 1 < |nodes| ==> dateNode.date < nodes[i + 1].date
    {
      tmp := head;
      i := 0;
      while tmp.next != null && tmp.next.CompareTo(dateNode) < 0
        invariant Chained(nodes)
        invariant i < |nodes| && tmp == nodes[i]
        invariant nodes[i].date < dateNode.date
        decreases |nodes| - i
      {
        assert tmp.next == Successor(nodes, i);
        tmp := tmp.next;
        i := i + 1;
      }
      assert tmp.next == Successor(nodes, i);
      assert i + 1 < |nodes| ==> nodes[i + 1] in nodes;
    }

    /** The pointer rewiring at the end of insertDateNodeOrdered: link
        `dateNode` right after `tmp`, the i-th node. */
    method SpliceAfter(tmp: DateNode, ghost i: nat, dateNode: DateNode)
      requires Linked() && i < |nodes| && tmp == nodes[i]
      requires dateNode !in nodes && dateNode.prev == null && dateNode.next == null
      requires nodes[i].date < dateNode.date
      requires i + 1 < |nodes| ==> dateNode.date < nodes[i + 1].date
      modifies this`nodes, nodes`next, nodes`prev, dateNode`next, dateNode`prev
      ensures Linked()
      ensures nodes == old(nodes)[..i + 1] + [dateNode] + old(nodes)[i + 1..]
    {
      ghost var s := nodes;
      assert tmp.next == Successor(s, i);
      dateNode.next := tmp.next;
      if tmp.next != null {
        assert dateNode.next == s[i + 1];
        dateNode.next.prev := dateNode;
      }
      tmp.next := dateNode;
      dateNode.prev := tmp;
      nodes := s[..i + 1] + [dateNode] + s[i + 1..];
      AscendingInsert(s, i + 1, dateNode);
      assert s[i].prev == old(s[i].prev) == Predecessor(s, i) by {
        assert i > 0 ==> s[i - 1] != s[i];
      }
      if i + 1 < |s| {
        assert s[i + 1] != s[i] && s[i + 1].next == old(s[i + 1].next) == Successor(s, i + 1);
      }
      forall j | 0 <= j < |s| && j != i && j != i + 1
        ensures s[j].next == Successor(s, j) && s[j].prev == Predecessor(s, j)
      {
        assert s[j] != s[i] && s[j] != dateNode && (i + 1 < |s| ==> s[j] != s[i + 1]);
        assert old(s[j].next) == Successor(s, j);
      }
      ChainedAfterSplice(s, i, dateNode);
    }
  }
}
