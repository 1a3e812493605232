/** The admin controller of the earlier backend variant: blacklist
    management with its (type, value) uniqueness, user deletion with the
    self-delete guard, and the filtered, paginated log list. */
module BackupAdmin {
  import opened Common
  import opened Paging
  import opened BackupStore
  import opened Users

  /** A reply: status code and message. */
  datatype Reply = Reply(code: nat, message: Message)

  /** A reply message: fixed text, or the schema validator's message about
      the named key (its wording is the validator's). */
  datatype Message = Text(text: string) | SchemaMessage(key: string)

  const InternalError := Reply(500, Text("Internal server error"))

  // ---------------------------------------------------------------------------
  // addToBlacklist
  // ---------------------------------------------------------------------------

  /** The request body: the three schema keys (absent as `None`) and any keys
      the schema does not declare. */
  datatype BlacklistBody = BlacklistBody(kind: Option<string>, value: Option<string>, reason: Option<string>,
                                         unknownKeys: seq<string>)

  /** The first key the schema rejects, in schema order: `type` must be one of
      the two kinds, `value` a non-empty text, `reason` absent or non-empty,
      and no other key may appear. */
  function FirstInvalidKey(b: BlacklistBody): (r: Option<string>)
    ensures r.None? <==>
      && b.kind.Some? && (b.kind.value == "certificate" || b.kind.value == "institution")
      && Truthy(b.value)
      && (b.reason.Some? ==> b.reason.value != "")
      && b.unknownKeys == []
  {
    if b.kind.None? || (b.kind.value != "certificate" && b.kind.value != "institution") then Some("type")
    else if !Truthy(b.value) then Some("value")
    else if b.reason.Some? && b.reason.value == "" then Some("reason")
    else if b.unknownKeys != [] then Some(b.unknownKeys[0])
    else None
  }

  /** Whether the table already lists this (type, value) pair. */
  predicate Listed(entries: map<nat, BlacklistEntry>, e: BlacklistEntry) {
    exists id :: id in entries && entries[id] == e
  }

  /** `addToBlacklist`: validate, refuse a duplicate, else create one entry
      under the next id. The reason is not a column of the table. */
  method AddToBlacklist(table: BlacklistTable, body: BlacklistBody) returns (reply: Reply, created: Option<nat>)
    requires table.Valid()
    modifies table
    ensures table.Valid()
    ensures FirstInvalidKey(body).Some? ==>
      && reply == Reply(400, SchemaMessage(FirstInvalidKey(body).value)) && created.None?
      && table.entries == old(table.entries) && table.nextId == old(table.nextId)
    ensures FirstInvalidKey(body).None? && Listed(old(table.entries), BlacklistEntry(body.kind.value, body.value.value)) ==>
      && reply == Reply(409, Text("Entry already exists in blacklist")) && created.None?
      && table.entries == old(table.entries) && table.nextId == old(table.nextId)
    ensures FirstInvalidKey(body).None? && !Listed(old(table.entries), BlacklistEntry(body.kind.value, body.value.value)) ==>
      && reply.code == 201 && created == Some(old(table.nextId))
      && table.entries == old(table.entries)[old(table.nextId) := BlacklistEntry(body.kind.value, body.value.value)]
      && table.nextId == old(table.nextId) + 1
  {
    var invalid := FirstInvalidKey(body);
    if invalid.Some? {
      return Reply(400, SchemaMessage(invalid.value)), None;
    }
    var entry := BlacklistEntry(body.kind.value, body.value.value);
    if exists id :: id in table.entries && table.entries[id] == entry {
      return Reply(409, Text("Entry already exists in blacklist")), None;
    }
    var id := table.nextId;
    table.entries := table.entries[id := entry];
    table.nextId := id + 1;
    reply, created := Reply(201, Text("")), Some(id);
  }

  // ---------------------------------------------------------------------------
  // removeFromBlacklist
  // ---------------------------------------------------------------------------

  /** `removeFromBlacklist`. `id` is the path parameter as the database reads
      it: `None` when it is not an integer, which makes the lookup fail. */
  method RemoveFromBlacklist(table: BlacklistTable, id: Option<int>) returns (reply: Reply)
    requires table.Valid()
    modifies table
    ensures table.Valid() && table.nextId == old(table.nextId)
    ensures id.None? ==> reply == InternalError && table.entries == old(table.entries)
    ensures id.Some? && (id.value < 0 || id.value as nat !in old(table.entries)) ==>
      reply == Reply(404, Text("Blacklist entry not found")) && table.entries == old(table.entries)
    ensures id.Some? && id.value >= 0 && id.value as nat in old(table.entries) ==>
      reply == Reply(200, Text("Entry removed from blacklist")) && table.entries == old(table.entries) - {id.value as nat}
  {
    if id.None? {
      return InternalError;
    }
    if id.value < 0 || id.value as nat !in table.entries {
      return Reply(404, Text("Blacklist entry not found"));
    }
    table.entries := table.entries - {id.value as nat};
    reply := Reply(200, Text("Entry removed from blacklist"));
  }

  /** Adding and then removing the created entry gives back the entries
      the table had. */
  lemma AddThenRemoveRestores(entries: map<nat, BlacklistEntry>, next: nat, e: BlacklistEntry)
    requires forall id :: id in entries ==> id < next
    ensures entries[next := e] - {next} == entries
  {
  }

  // ---------------------------------------------------------------------------
  // deleteUser
  // ---------------------------------------------------------------------------

  /** `deleteUser`. `callerId` is the authenticated admin's id; `id` is the
      path parameter as a number (`None` when it is not one: it then equals
      no id and makes the lookup fail). */
  method DeleteUser(table: UserTable, callerId: int, id: Option<int>) returns (reply: Reply)
    requires table.Valid()
    modifies table
    ensures table.Valid() && table.nextId == old(table.nextId)
    ensures id == Some(callerId) ==>
      reply == Reply(400, Text("Cannot delete your own account")) && table.users == old(table.users)
    ensures id.None? ==> reply == InternalError && table.users == old(table.users)
    ensures id.Some? && id.value != callerId && id.value !in old(table.users) ==>
      reply == Reply(404, Text("User not found")) && table.users == old(table.users)
    ensures id.Some? && id.value != callerId && id.value in old(table.users) ==>
      reply == Reply(200, Text("User deleted successfully")) && table.users == old(table.users) - {id.value}
  {
    if id == Some(callerId) {
      return Reply(400, Text("Cannot delete your own account"));
    }
    if id.None? {
      return InternalError;
    }
    if id.value !in table.users {
      return Reply(404, Text("User not found"));
    }
    table.users := table.users - {id.value};
    reply := Reply(200, Text("User deleted successfully"));
  }

  // ---------------------------------------------------------------------------
  // getLogs
  // ---------------------------------------------------------------------------

  /** A row of the `Log` table as the list shows it. */
  datatype LogRow = LogRow(certId: Option<string>, result: string, createdAt: int)

  /** A date query value as the date constructor reads it. */
  datatype DateQuery = ParsedDate(time: int) | InvalidDate

  datatype LogQuery = LogQuery(page: Option<int>, limit: Option<int>, status: Option<string>,
                               search: Option<string>, startDate: Option<string>, endDate: Option<string>)

  /** The where clause the handler builds. */
  datatype Where = Where(result: Option<string>, certIdLike: Option<string>, between: Option<(DateQuery, DateQuery)>)

  /** The log results the status filter knows. */
  predicate KnownResult(s: string) {
    s == "valid" || s == "invalid" || s == "suspicious"
  }

  /** The where clause a query asks for: the status when it is a known
      result, the search text when it is non-empty, and the date range when
      both ends are given. `parseDate` is the date constructor's reading of a
      query value. */
  function ClauseOf(q: LogQuery, parseDate: string -> DateQuery): Where {
    Where(if q.status.Some? && KnownResult(q.status.value) then q.status else None,
          if Truthy(q.search) then q.search else None,
          if Truthy(q.startDate) && Truthy(q.endDate) then Some((parseDate(q.startDate.value), parseDate(q.endDate.value))) else None)
  }

  /** Build the where clause field by field. */
  method BuildWhere(q: LogQuery, parseDate: string -> DateQuery) returns (w: Where)
    ensures w == ClauseOf(q, parseDate)
    ensures w.result.Some? <==> q.status.Some? && KnownResult(q.status.value)
    ensures w.result.Some? ==> w.result == q.status
    ensures w.certIdLike.Some? <==> Truthy(q.search)
    ensures w.certIdLike.Some? ==> w.certIdLike == q.search
    ensures w.between.Some? <==> Truthy(q.startDate) && Truthy(q.endDate)
    ensures w.between.Some? ==> w.between.value == (parseDate(q.startDate.value), parseDate(q.endDate.value))
  {
    w := Where(None, None, None);
    if Truthy(q.status) && KnownResult(q.status.value) {
      w := w.(result := q.status);
    }
    if Truthy(q.search) {
      w := w.(certIdLike := q.search);
    }
    if Truthy(q.startDate) && Truthy(q.endDate) {
      w := w.(between := Some((parseDate(q.startDate.value), parseDate(q.endDate.value))));
    }
  }

  /** A log row satisfies the where clause: equal result, the certificate id
      containing the search text, the creation time within the range
      (both ends included). */
  predicate Satisfies(w: Where, l: LogRow)
    requires w.between.Some? ==> w.between.value.0.ParsedDate? && w.between.value.1.ParsedDate?
  {
    && (w.result.Some? ==> l.result == w.result.value)
    && (w.certIdLike.Some? ==> l.certId.Some? && Contains(l.certId.value, w.certIdLike.value))
    && (w.between.Some? ==> w.between.value.0.time <= l.createdAt <= w.between.value.1.time)
  }

  /** Whether the database refuses the query: an unreadable date, or a
      negative limit or offset. */
  predicate QueryRefused(w: Where, page: int, limit: int) {
    || (w.between.Some? && (w.between.value.0.InvalidDate? || w.between.value.1.InvalidDate?))
    || limit < 0 || Offset(page, limit) < 0
  }

  datatype Pagination = Pagination(total: nat, page: int, limit: int, pages: int)

  datatype LogsReply = Logs(logs: seq<LogRow>, pagination: Pagination) | LogsFailed(reply: Reply)

  /** The rows the where clause admits, in table order. */
  function Matching(w: Where, logs: seq<LogRow>): seq<LogRow>
    requires w.between.Some? ==> w.between.value.0.ParsedDate? && w.between.value.1.ParsedDate?
  {
    Filter(logs, (l: LogRow) => Satisfies(w, l))
  }

  /** `findAndCountAll` with the clause, limit and offset: the count of all
      admitted rows and the one page of them. */
  function FindAndCount(w: Where, page: int, limit: int, logs: seq<LogRow>): (r: LogsReply)
    requires limit != 0
    ensures r.LogsFailed? <==> QueryRefused(w, page, limit)
    ensures r.LogsFailed? ==> r.reply == InternalError
    ensures r.Logs? ==>
      && (forall l :: l in r.logs ==> l in logs && Satisfies(w, l))
      && |r.logs| <= limit
      && r.logs == PageOf(Matching(w, logs), page, limit)
      && r.pagination.total == CountWhere(logs, (l: LogRow) => Satisfies(w, l))
      && r.pagination.page == page && r.pagination.limit == limit
      && (r.pagination.pages - 1) * limit < r.pagination.total <= r.pagination.pages * limit
  {
    if QueryRefused(w, page, limit) then LogsFailed(InternalError)
    else
      var matching := Matching(w, logs);
      FilterSpec(logs, (l: LogRow) => Satisfies(w, l));
      var rows := PageOf(matching, page, limit);
      assert forall l :: l in rows ==> l in matching by {
        forall l | l in rows ensures l in matching {
          var k :| 0 <= k < |rows| && rows[k] == l;
        }
      }
      Logs(rows, Pagination(|matching|, page, limit, CeilDiv(|matching|, limit)))
  }

  /** Every admitted row is listed on the page its position gives. */
  lemma EveryLogOnItsPage(w: Where, limit: int, logs: seq<LogRow>, j: nat)
    requires limit >= 1
    requires w.between.Some? ==> w.between.value.0.ParsedDate? && w.between.value.1.ParsedDate?
    requires j < |Matching(w, logs)|
    ensures var r := FindAndCount(w, j / limit + 1, limit, logs);
      r.Logs? && j % limit < |r.logs| && r.logs[j % limit] == Matching(w, logs)[j]
  {
    var page := j / limit + 1;
    var matching := Matching(w, logs);
    EveryItemOnItsPage(matching, limit, j);
    assert !QueryRefused(w, page, limit);
  }

  /** `getLogs`: defaults page 1 and limit 10, the where clause, then one
      query. `logs` is the table ordered by creation time, newest first. */
  method GetLogs(q: LogQuery, logs: seq<LogRow>, parseDate: string -> DateQuery) returns (r: LogsReply)
    ensures r == FindAndCount(ClauseOf(q, parseDate), QueryIntOr(q.page, 1), QueryIntOr(q.limit, 10), logs)
    ensures r.LogsFailed? <==> QueryRefused(ClauseOf(q, parseDate), QueryIntOr(q.page, 1), QueryIntOr(q.limit, 10))
    ensures r.LogsFailed? ==> r.reply == InternalError
    ensures r.Logs? ==>
      && r.pagination.page == QueryIntOr(q.page, 1)
      && r.pagination.limit == QueryIntOr(q.limit, 10)
      && r.pagination.total == |Matching(ClauseOf(q, parseDate), logs)|
      && r.pagination.pages == CeilDiv(r.pagination.total, QueryIntOr(q.limit, 10))
      && (forall l :: l in r.logs ==> l in logs)
      && (q.status.Some? && KnownResult(q.status.value) ==> forall l :: l in r.logs ==> l.result == q.status.value)
      && (Truthy(q.search) ==> forall l :: l in r.logs ==> l.certId.Some? && Contains(l.certId.value, q.search.value))
      && (Truthy(q.startDate) && Truthy(q.endDate) ==>
            forall l :: l in r.logs ==>
              parseDate(q.startDate.value).time <= l.createdAt <= parseDate(q.endDate.value).time)
  {
    var page := QueryIntOr(q.page, 1);
    var limit := QueryIntOr(q.limit, 10);
    var w := BuildWhere(q, parseDate);
    r := FindAndCount(w, page, limit, logs);
    if r.Logs? {
      FilterSpec(logs, (l: LogRow) => Satisfies(w, l));
    }
  }
}
