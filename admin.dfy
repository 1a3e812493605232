/** The admin dashboard endpoints of the backend: the statistics overview with
    its seven-day trend and institution ranking, the filtered and paginated
    log and certificate lists, and the blacklist toggle with its audit entry. */
module Admin {
  import opened Common
  import opened Paging
  import opened CertificateTable

  /** A row of the `logs` table. `createdAt` is the creation time in
      milliseconds since the epoch. */
  datatype LogRow = LogRow(rollNumber: Option<string>, certificateId: Option<string>, result: Option<string>,
                           reasons: seq<string>, createdAt: int)

  const MillisPerDay := 86400000

  /** The UTC calendar day of a time, as days since the epoch: the day whose
      ISO date `created_at` starts with. */
  function DayOf(t: int): int {
    t / MillisPerDay
  }

  // ---------------------------------------------------------------------------
  // getStats
  // ---------------------------------------------------------------------------

  datatype Overview = Overview(totalUsers: nat, totalCertificates: nat, totalVerifications: nat, blacklistedCertificates: nat)

  datatype Stats = Stats(overview: Overview, trends: seq<(int, nat)>, topInstitutions: seq<(string, nat)>)

  function CountBlacklisted(certs: seq<Certificate>): nat {
    CountWhere(certs, (c: Certificate) => c.blacklisted)
  }

  /** The number of logs created on the given day. */
  function LogsOnDay(logs: seq<LogRow>, day: int): nat {
    CountWhere(logs, (l: LogRow) => DayOf(l.createdAt) == day)
  }

  /** The seven-day trend: one entry per day from six days ago to today,
      oldest first, each with that day's log count. */
  method Trends(logs: seq<LogRow>, today: int) returns (trends: seq<(int, nat)>)
    ensures |trends| == 7
    ensures forall k :: 0 <= k < 7 ==> trends[k] == (today - 6 + k, LogsOnDay(logs, today - 6 + k))
  {
    trends := [];
    var i := 6;
    while i >= 0
      invariant -1 <= i <= 6
      invariant |trends| == 6 - i
      invariant forall k :: 0 <= k < |trends| ==> trends[k] == (today - 6 + k, LogsOnDay(logs, today - 6 + k))
    {
      var day := today - i;
      trends := trends + [(day, LogsOnDay(logs, day))];
      i := i - 1;
    }
  }

  /** The key an institution gets in the counting object: its name, or the
      text "null" for a missing one. */
  function InstitutionKey(c: Certificate): string {
    if c.institution.Some? then c.institution.value else "null"
  }

  /** The counting object after the first certificates, keys in first-seen order. */
  function InstitutionCounts(certs: seq<Certificate>): seq<(string, nat)>
    decreases |certs|
  {
    if certs == [] then []
    else
      var prev := InstitutionCounts(certs[..|certs| - 1]);
      var key := InstitutionKey(certs[|certs| - 1]);
      var current := AssocGet(prev, key);
      AssocPut(prev, key, if current.Some? then current.value + 1 else 1)
  }

  /** Each institution appears once in the counting object. */
  lemma {:induction false} InstitutionCountsUniqueKeys(certs: seq<Certificate>)
    ensures UniqueKeys(InstitutionCounts(certs))
    decreases |certs|
  {
    if certs != [] {
      var prev := InstitutionCounts(certs[..|certs| - 1]);
      var key := InstitutionKey(certs[|certs| - 1]);
      var current := AssocGet(prev, key);
      InstitutionCountsUniqueKeys(certs[..|certs| - 1]);
      AssocPutUnique(prev, key, if current.Some? then current.value + 1 else 1);
    }
  }

  /** Each institution's count is the number of certificates that carry it,
      and only institutions that occur are listed. */
  lemma {:induction false} InstitutionCountsCorrect(certs: seq<Certificate>, k: string)
    ensures var n := CountWhere(certs, (c: Certificate) => InstitutionKey(c) == k);
      AssocGet(InstitutionCounts(certs), k) == if n == 0 then None else Some(n)
    decreases |certs|
  {
    if certs != [] {
      InstitutionCountsCorrect(certs[..|certs| - 1], k);
      var prev := InstitutionCounts(certs[..|certs| - 1]);
      var key := InstitutionKey(certs[|certs| - 1]);
      var current := AssocGet(prev, key);
      AssocPutSpec(prev, key, if current.Some? then current.value + 1 else 1);
    }
  }

  /** The `forEach` that fills the counting object. */
  method CountInstitutions(certs: seq<Certificate>) returns (counts: seq<(string, nat)>)
    ensures counts == InstitutionCounts(certs)
  {
    counts := [];
    var i := 0;
    while i < |certs|
      invariant 0 <= i <= |certs|
      invariant counts == InstitutionCounts(certs[..i])
    {
      InstitutionCountsStep(certs, i);
      var key := InstitutionKey(certs[i]);
      var current := AssocGet(counts, key);
      var n := if current.Some? then current.value else 0;
      counts := AssocPut(counts, key, n + 1);
      i := i + 1;
    }
    assert certs[..|certs|] == certs;
  }

  /** One more certificate adds one to its institution's entry. */
  lemma InstitutionCountsStep(certs: seq<Certificate>, i: nat)
    requires i < |certs|
    ensures var prev := InstitutionCounts(certs[..i]);
      var current := AssocGet(prev, InstitutionKey(certs[i]));
      InstitutionCounts(certs[..i + 1]) ==
        AssocPut(prev, InstitutionKey(certs[i]), (if current.Some? then current.value else 0) + 1)
  {
    assert certs[..i + 1][..i] == certs[..i];
  }

  /** `name || 'Unknown'`: only the empty name is falsy. */
  function Renamed(counts: seq<(string, nat)>): (r: seq<(string, nat)>)
    ensures |r| == |counts|
    ensures forall i :: 0 <= i < |r| ==> r[i].1 == counts[i].1 && (r[i].0 == if counts[i].0 == "" then "Unknown" else counts[i].0)
  {
    seq(|counts|, i requires 0 <= i < |counts| => (if counts[i].0 == "" then "Unknown" else counts[i].0, counts[i].1))
  }

  /** Insert into a list sorted by non-increasing count, before the first
      entry whose count is not larger, so that earlier entries stay first
      among equals. */
  function InsertByCount(x: (string, nat), sorted: seq<(string, nat)>): seq<(string, nat)>
  {
    if sorted == [] || x.1 >= sorted[0].1 then [x] + sorted
    else [sorted[0]] + InsertByCount(x, sorted[1..])
  }

  /** `sort((a, b) => b.count - a.count)`: a stable sort by non-increasing count. */
  function SortByCount(s: seq<(string, nat)>): seq<(string, nat)>
  {
    if s == [] then [] else InsertByCount(s[0], SortByCount(s[1..]))
  }

  predicate NonIncreasing(s: seq<(string, nat)>) {
    forall i, j :: 0 <= i < j < |s| ==> s[i].1 >= s[j].1
  }

  /** Inserting into a sorted list keeps it sorted and adds exactly `x`. */
  lemma {:induction false} InsertByCountSorted(x: (string, nat), sorted: seq<(string, nat)>)
    requires NonIncreasing(sorted)
    ensures NonIncreasing(InsertByCount(x, sorted))
    ensures multiset(InsertByCount(x, sorted)) == multiset(sorted) + multiset{x}
    decreases |sorted|
  {
    InsertByCountPermutes(x, sorted);
    if sorted != [] && x.1 < sorted[0].1 {
      InsertByCountSorted(x, sorted[1..]);
      InsertByCountBounded(x, sorted[1..], sorted[0].1);
      ConsNonIncreasing(sorted[0], InsertByCount(x, sorted[1..]));
    }
  }

  /** A head no smaller than every count of a sorted tail keeps the list sorted. */
  lemma ConsNonIncreasing(h: (string, nat), rest: seq<(string, nat)>)
    requires NonIncreasing(rest)
    requires forall k :: 0 <= k < |rest| ==> rest[k].1 <= h.1
    ensures NonIncreasing([h] + rest)
  {
    var ins := [h] + rest;
    forall i, j | 0 <= i < j < |ins| ensures ins[i].1 >= ins[j].1 {
      assert ins[j] == rest[j - 1];
      if i > 0 {
        assert ins[i] == rest[i - 1];
      }
    }
  }

  lemma {:induction false} InsertByCountPermutes(x: (string, nat), s: seq<(string, nat)>)
    ensures multiset(InsertByCount(x, s)) == multiset(s) + multiset{x}
    decreases |s|
  {
    if s != [] && x.1 < s[0].1 {
      InsertByCountPermutes(x, s[1..]);
      assert s == [s[0]] + s[1..];
    }
  }

  /** A bound on every count of the list and of `x` bounds the result too. */
  lemma {:induction false} InsertByCountBounded(x: (string, nat), s: seq<(string, nat)>, bound: nat)
    requires x.1 <= bound
    requires forall i :: 0 <= i < |s| ==> s[i].1 <= bound
    ensures forall k :: 0 <= k < |InsertByCount(x, s)| ==> InsertByCount(x, s)[k].1 <= bound
    decreases |s|
  {
    if s != [] && x.1 < s[0].1 {
      InsertByCountBounded(x, s[1..], bound);
      assert InsertByCount(x, s) == [s[0]] + InsertByCount(x, s[1..]);
    }
  }

  /** The sort orders by non-increasing count and is a permutation. */
  lemma {:induction false} SortByCountCorrect(s: seq<(string, nat)>)
    ensures |SortByCount(s)| == |s|
    ensures NonIncreasing(SortByCount(s))
    ensures multiset(SortByCount(s)) == multiset(s)
    decreases |s|
  {
    if s != [] {
      SortByCountCorrect(s[1..]);
      InsertByCountSorted(s[0], SortByCount(s[1..]));
      assert s == [s[0]] + s[1..];
    }
    assert |multiset(SortByCount(s))| == |multiset(s)|;
  }

  /** The ranking: renamed, sorted, the first five. */
  function TopInstitutions(counts: seq<(string, nat)>): seq<(string, nat)>
  {
    var sorted := SortByCount(Renamed(counts));
    if |sorted| <= 5 then sorted else sorted[..5]
  }

  /** In a list sorted by non-increasing count, an entry outside the first
      `n` has no larger count than any entry among them. */
  lemma PrefixDominates(sorted: seq<(string, nat)>, n: nat, e: (string, nat), t: (string, nat))
    requires NonIncreasing(sorted) && n <= |sorted|
    requires e in sorted && e !in sorted[..n] && t in sorted[..n]
    ensures t.1 >= e.1
  {
    var j :| 0 <= j < |sorted| && sorted[j] == e;
    var i :| 0 <= i < n && sorted[..n][i] == t;
    assert sorted[i] == t;
  }

  /** At most five entries, by non-increasing count, each taken from the
      counts; and no institution left out has a larger count than one shown. */
  lemma TopInstitutionsRanked(counts: seq<(string, nat)>)
    ensures |TopInstitutions(counts)| == (if |counts| <= 5 then |counts| else 5)
    ensures NonIncreasing(TopInstitutions(counts))
    ensures forall e :: e in TopInstitutions(counts) ==> e in Renamed(counts)
    ensures forall e, t :: e in Renamed(counts) && e !in TopInstitutions(counts) && t in TopInstitutions(counts) ==> t.1 >= e.1
  {
    var renamed := Renamed(counts);
    var sorted := SortByCount(renamed);
    SortByCountCorrect(renamed);
    var n := if |sorted| <= 5 then |sorted| else 5;
    assert TopInstitutions(counts) == sorted[..n];
    SameElements(sorted, renamed);
    PrefixDominatesAll(sorted, n);
  }

  /** Two lists that are permutations of each other hold the same entries. */
  lemma SameElements(a: seq<(string, nat)>, b: seq<(string, nat)>)
    requires multiset(a) == multiset(b)
    ensures forall e :: e in a <==> e in b
  {
    forall e | e in a ensures e in b {
      assert e in multiset(a);
    }
    forall e | e in b ensures e in a {
      assert e in multiset(b);
    }
  }

  /** `PrefixDominates` for every pair at once. */
  lemma PrefixDominatesAll(sorted: seq<(string, nat)>, n: nat)
    requires NonIncreasing(sorted) && n <= |sorted|
    ensures forall e, t :: e in sorted && e !in sorted[..n] && t in sorted[..n] ==> t.1 >= e.1
  {
    forall e, t | e in sorted && e !in sorted[..n] && t in sorted[..n] ensures t.1 >= e.1 {
      PrefixDominates(sorted, n, e, t);
    }
  }

  /** `getStats`. `certs`, `logs` and `profiles` are the three table reads
      (`None` when a read fails; a failed profile read counts as no users);
      `now` is the current time. */
  method GetStats(certs: Option<seq<Certificate>>, logs: Option<seq<LogRow>>, profiles: Option<nat>, now: int)
    returns (s: Stats)
    ensures certs.None? ==> s == Stats(Overview(0, 0, 0, 0), [], [])
    ensures certs.Some? && logs.None? ==>
      s == Stats(Overview(0, |certs.value|, 0, CountBlacklisted(certs.value)), [], [])
    ensures certs.Some? && logs.Some? ==>
      && s.overview == Overview(if profiles.Some? then profiles.value else 0, |certs.value|, |logs.value|, CountBlacklisted(certs.value))
      && |s.trends| == 7
      && (forall k :: 0 <= k < 7 ==> s.trends[k] == (DayOf(now) - 6 + k, LogsOnDay(logs.value, DayOf(now) - 6 + k)))
      && s.topInstitutions == TopInstitutions(InstitutionCounts(certs.value))
  {
    if certs.None? {
      return Stats(Overview(0, 0, 0, 0), [], []);
    }
    var blacklisted := CountBlacklisted(certs.value);
    if logs.None? {
      return Stats(Overview(0, |certs.value|, 0, blacklisted), [], []);
    }
    var totalUsers := if profiles.Some? then profiles.value else 0;
    var trends := Trends(logs.value, DayOf(now));
    var counts := CountInstitutions(certs.value);
    s := Stats(Overview(totalUsers, |certs.value|, |logs.value|, blacklisted), trends, TopInstitutions(counts));
  }

  // ---------------------------------------------------------------------------
  // getLogs and getCertificates
  // ---------------------------------------------------------------------------

  /** A date query value as `new Date(q)` reads it. */
  datatype DateQuery = ParsedDate(time: int) | InvalidDate

  /** The filter part of a `getLogs` query. */
  datatype LogFilter = LogFilter(result: Option<string>, certificateId: Option<string>,
                                 startDate: Option<DateQuery>, endDate: Option<DateQuery>)

  datatype LogQuery = LogQuery(page: Option<int>, limit: Option<int>, filter: LogFilter)

  /** The three filters of `getLogs`, each applied only when its query value
      is present and non-empty. An unparsable date admits nothing. */
  predicate LogMatches(q: LogFilter, l: LogRow) {
    && (Truthy(q.result) ==> l.result == q.result)
    && (Truthy(q.certificateId) ==> Truthy(l.certificateId) && Contains(l.certificateId.value, q.certificateId.value))
    && (q.startDate.Some? && q.endDate.Some? ==>
          q.startDate.value.ParsedDate? && q.endDate.value.ParsedDate? &&
          q.startDate.value.time <= l.createdAt <= q.endDate.value.time)
  }

  /** The logs that pass the filters, in table order. */
  function MatchingLogs(f: LogFilter, logs: seq<LogRow>): seq<LogRow> {
    Filter(logs, (l: LogRow) => LogMatches(f, l))
  }

  datatype Listing<T> = Listing(items: seq<T>, pagination: PageInfo)

  /** `getLogs`: filter, count, then slice one page. `logs` is the table read
      (newest first), `None` when it fails. */
  function GetLogs(q: LogQuery, logs: Option<seq<LogRow>>): (r: Listing<LogRow>)
    ensures forall l :: l in r.items ==> logs.Some? && l in logs.value && LogMatches(q.filter, l)
    ensures r.pagination.currentPage == QueryIntOr(q.page, 1)
  {
    var page := QueryIntOr(q.page, 1);
    var limit := QueryIntOr(q.limit, 20);
    if logs.None? then Listing([], PageInfo(page, 0, 0, false, false))
    else
      var matching := MatchingLogs(q.filter, logs.value);
      FilterSpec(logs.value, (l: LogRow) => LogMatches(q.filter, l));
      var items := PageOf(matching, page, limit);
      assert forall l :: l in items ==> l in matching by {
        forall l | l in items ensures l in matching {
          var k :| 0 <= k < |items| && items[k] == l;
        }
      }
      Listing(items, PageInfoOf(page, limit, |matching|))
  }

  /** The log list's pagination counts the logs that pass the filters, the
      items are exactly the requested page of them (never more than `limit`),
      and every such log is shown on the page its position gives. */
  lemma GetLogsPagination(q: LogQuery, logs: seq<LogRow>, j: nat)
    requires QueryIntOr(q.limit, 20) >= 1
    ensures GetLogs(q, Some(logs)).items == PageOf(MatchingLogs(q.filter, logs), QueryIntOr(q.page, 1), QueryIntOr(q.limit, 20))
    ensures QueryIntOr(q.page, 1) >= 1 ==> |GetLogs(q, Some(logs)).items| <= QueryIntOr(q.limit, 20)
    ensures GetLogs(q, Some(logs)).pagination == PageInfoOf(QueryIntOr(q.page, 1), QueryIntOr(q.limit, 20), |MatchingLogs(q.filter, logs)|)
    ensures GetLogs(q, Some(logs)).pagination.totalItems == CountWhere(logs, (l: LogRow) => LogMatches(q.filter, l))
    ensures j < |MatchingLogs(q.filter, logs)| ==>
      var limit := QueryIntOr(q.limit, 20);
      var onPage := GetLogs(q.(page := Some(j / limit + 1)), Some(logs)).items;
      j % limit < |onPage| && onPage[j % limit] == MatchingLogs(q.filter, logs)[j]
  {
    var limit := QueryIntOr(q.limit, 20);
    var matching := MatchingLogs(q.filter, logs);
    FilterSpec(logs, (l: LogRow) => LogMatches(q.filter, l));
    PageAtMostLimit(matching, QueryIntOr(q.page, 1), limit);
    if j < |matching| {
      EveryItemOnItsPage(matching, limit, j);
      var page := j / limit + 1;
      assert GetLogs(q.(page := Some(page)), Some(logs)).items == PageOf(matching, page, limit);
    }
  }

  /** The filter part of a `getCertificates` query. */
  datatype CertificateFilter = CertificateFilter(search: Option<string>, institution: Option<string>,
                                                 status: Option<string>, blacklisted: Option<string>)

  datatype CertificateQuery = CertificateQuery(page: Option<int>, limit: Option<int>, filter: CertificateFilter)

  /** The four filters of `getCertificates`. The search is a substring of the
      identifier, the student name or the institution; the blacklist filter
      compares the flag with whether the query is the text "true". */
  predicate CertificateMatches(q: CertificateFilter, c: Certificate) {
    && (Truthy(q.search) ==>
          (Truthy(c.certificateId) && Contains(c.certificateId.value, q.search.value))
          || (c.studentName != "" && Contains(c.studentName, q.search.value))
          || (Truthy(c.institution) && Contains(c.institution.value, q.search.value)))
    && (Truthy(q.institution) ==> c.institution == q.institution)
    && (Truthy(q.status) ==> c.status == q.status)
    && (q.blacklisted.Some? ==> c.blacklisted == (q.blacklisted.value == "true"))
  }

  /** The certificates that pass the filters, in table order. */
  function MatchingCertificates(f: CertificateFilter, certs: seq<Certificate>): seq<Certificate> {
    Filter(certs, (c: Certificate) => CertificateMatches(f, c))
  }

  /** `getCertificates`: filter, count, then slice one page. */
  function GetCertificates(q: CertificateQuery, certs: Option<seq<Certificate>>): (r: Listing<Certificate>)
    ensures forall c :: c in r.items ==> certs.Some? && c in certs.value && CertificateMatches(q.filter, c)
    ensures r.pagination.currentPage == QueryIntOr(q.page, 1)
  {
    var page := QueryIntOr(q.page, 1);
    var limit := QueryIntOr(q.limit, 20);
    if certs.None? then Listing([], PageInfo(page, 0, 0, false, false))
    else
      var matching := MatchingCertificates(q.filter, certs.value);
      FilterSpec(certs.value, (c: Certificate) => CertificateMatches(q.filter, c));
      var items := PageOf(matching, page, limit);
      assert forall c :: c in items ==> c in matching by {
        forall c | c in items ensures c in matching {
          var k :| 0 <= k < |items| && items[k] == c;
        }
      }
      Listing(items, PageInfoOf(page, limit, |matching|))
  }

  /** The certificate list's pagination counts the certificates that pass
      the filters (`Math.ceil` pages, `hasNext`, `hasPrev`), the items are
      exactly the requested page of them (never more than `limit`), and every
      such certificate is shown on the page its position gives. */
  lemma GetCertificatesPagination(q: CertificateQuery, certs: seq<Certificate>, j: nat)
    requires QueryIntOr(q.limit, 20) >= 1
    ensures GetCertificates(q, Some(certs)).items ==
      PageOf(MatchingCertificates(q.filter, certs), QueryIntOr(q.page, 1), QueryIntOr(q.limit, 20))
    ensures QueryIntOr(q.page, 1) >= 1 ==> |GetCertificates(q, Some(certs)).items| <= QueryIntOr(q.limit, 20)
    ensures GetCertificates(q, Some(certs)).pagination ==
      PageInfoOf(QueryIntOr(q.page, 1), QueryIntOr(q.limit, 20), |MatchingCertificates(q.filter, certs)|)
    ensures GetCertificates(q, Some(certs)).pagination.totalItems ==
      CountWhere(certs, (c: Certificate) => CertificateMatches(q.filter, c))
    ensures j < |MatchingCertificates(q.filter, certs)| ==>
      var limit := QueryIntOr(q.limit, 20);
      var onPage := GetCertificates(q.(page := Some(j / limit + 1)), Some(certs)).items;
      j % limit < |onPage| && onPage[j % limit] == MatchingCertificates(q.filter, certs)[j]
  {
    var limit := QueryIntOr(q.limit, 20);
    var matching := MatchingCertificates(q.filter, certs);
    FilterSpec(certs, (c: Certificate) => CertificateMatches(q.filter, c));
    PageAtMostLimit(matching, QueryIntOr(q.page, 1), limit);
    if j < |matching| {
      EveryItemOnItsPage(matching, limit, j);
      var page := j / limit + 1;
      assert GetCertificates(q.(page := Some(page)), Some(certs)).items == PageOf(matching, page, limit);
    }
  }

  /** The blacklist filter compares the flag with whether the query is the
      text "true": any other value (including "false", "1" and the empty text)
      selects the certificates that are not blacklisted. Every certificate
      listed or counted has that flag, and with no other filter every stored
      certificate with that flag is counted. */
  lemma BlacklistedFilterIsTextTrue(q: CertificateQuery, certs: seq<Certificate>, c: Certificate)
    requires q.filter.blacklisted.Some?
    ensures c in GetCertificates(q, Some(certs)).items ==> c.blacklisted == (q.filter.blacklisted.value == "true")
    ensures c in MatchingCertificates(q.filter, certs) ==> c.blacklisted == (q.filter.blacklisted.value == "true")
    ensures !Truthy(q.filter.search) && !Truthy(q.filter.institution) && !Truthy(q.filter.status) ==>
      (c in MatchingCertificates(q.filter, certs) <==> c in certs && c.blacklisted == (q.filter.blacklisted.value == "true"))
  {
    var p := (x: Certificate) => CertificateMatches(q.filter, x);
    FilterSpec(certs, p);
    if c in certs && p(c) {
      FilterComplete(certs, p, c);
    }
  }

  /** The search matches a certificate exactly when the text occurs at some
      position of its identifier, student name or institution. */
  lemma SearchIsSubstring(q: CertificateFilter, c: Certificate)
    requires Truthy(q.search) && !Truthy(q.institution) && !Truthy(q.status) && q.blacklisted.None?
    ensures CertificateMatches(q, c) <==>
      (c.certificateId.Some? && exists i :: OccursAt(c.certificateId.value, q.search.value, i))
      || (exists i :: OccursAt(c.studentName, q.search.value, i))
      || (c.institution.Some? && exists i :: OccursAt(c.institution.value, q.search.value, i))
  {
    var s := q.search.value;
    ContainsIffOccurs(c.studentName, s);
    if c.studentName == "" {
      assert !exists i :: OccursAt(c.studentName, s, i);
    }
    if c.certificateId.Some? {
      ContainsIffOccurs(c.certificateId.value, s);
      if c.certificateId.value == "" {
        assert !exists i :: OccursAt(c.certificateId.value, s, i);
      }
    }
    if c.institution.Some? {
      ContainsIffOccurs(c.institution.value, s);
      if c.institution.value == "" {
        assert !exists i :: OccursAt(c.institution.value, s, i);
      }
    }
  }

  // ---------------------------------------------------------------------------
  // toggleBlacklist
  // ---------------------------------------------------------------------------

  /** The `logs` table as the toggle appends to it. */
  class LogTable {
    var rows: seq<LogRow>

    constructor (initial: seq<LogRow>)
      ensures rows == initial
    {
      rows := initial;
    }
  }

  datatype ToggleResponse = Toggled(rollNumber: string, blacklisted: bool, message: string) | ToggleFailed(code: nat, reasons: seq<string>)

  function ActionName(blacklisted: bool): string {
    if blacklisted then "blacklisted" else "unblacklisted"
  }

  /** The audit entry of a successful toggle. */
  function ToggleLog(rollNumber: string, blacklisted: bool, reason: Option<string>, now: int): LogRow {
    LogRow(Some(rollNumber), None, Some(ActionName(blacklisted)),
           [if Truthy(reason) then reason.value else "Certificate " + ActionName(blacklisted) + " by admin"], now)
  }

  /** The certificates after the flag of `rollNumber` is set to `b`. */
  function WithFlag(byRoll: map<string, Certificate>, rollNumber: string, b: bool): map<string, Certificate>
    requires rollNumber in byRoll
  {
    byRoll[rollNumber := byRoll[rollNumber].(blacklisted := b)]
  }

  /** `toggleBlacklist`: set the flag of the certificate with that roll number
      and record one audit entry; `updateFails` is the store refusing the
      update. */
  method ToggleBlacklist(table: Table, logs: LogTable, rollNumber: string, blacklisted: bool,
                         reason: Option<string>, now: int, updateFails: bool)
    returns (resp: ToggleResponse)
    requires table.Valid()
    modifies table, logs
    ensures table.Valid()
    ensures table.unkeyed == old(table.unkeyed)
    ensures updateFails || rollNumber !in old(table.byRoll) ==>
      && resp == ToggleFailed(404, ["Certificate not found"])
      && table.byRoll == old(table.byRoll) && logs.rows == old(logs.rows)
    ensures !updateFails && rollNumber in old(table.byRoll) ==>
      && table.byRoll == WithFlag(old(table.byRoll), rollNumber, blacklisted)
      && logs.rows == old(logs.rows) + [ToggleLog(rollNumber, blacklisted, reason, now)]
      && resp == Toggled(rollNumber, blacklisted, "Certificate " + ActionName(blacklisted) + " successfully")
  {
    if updateFails || rollNumber !in table.byRoll {
      return ToggleFailed(404, ["Certificate not found"]);
    }
    table.byRoll := table.byRoll[rollNumber := table.byRoll[rollNumber].(blacklisted := blacklisted)];
    logs.rows := logs.rows + [ToggleLog(rollNumber, blacklisted, reason, now)];
    resp := Toggled(rollNumber, blacklisted, "Certificate " + ActionName(blacklisted) + " successfully");
  }

  /** Two successful toggles, the second back to the old flag, restore the
      table: by `ToggleBlacklist`'s contract the table after each call is
      `WithFlag` of the one before. */
  lemma ToggleTwiceRestores(byRoll: map<string, Certificate>, rollNumber: string, b: bool)
    requires rollNumber in byRoll
    ensures rollNumber in WithFlag(byRoll, rollNumber, b)
    ensures WithFlag(WithFlag(byRoll, rollNumber, b), rollNumber, byRoll[rollNumber].blacklisted) == byRoll
  {
  }
}
