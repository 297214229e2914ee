/** The backend's error middleware: `errorHandler` turns a thrown error into
    a status and an error body, grouping validation issues by field, and
    `notFoundHandler` answers unmatched routes. */
module ErrorHandling {
  import opened Wrappers
  import opened ItemSchema

  /** Per-field messages: dot-joined issue path to its messages. */
  type Fields = map<string, seq<string>>

  /** What a request handler can throw. */
  datatype Error =
    | ValidationError(issues: seq<Issue>)
    | AppError(statusCode: int, code: string, message: string, fields: Option<Fields>)
    | OtherError(name: string, message: string)

  /** The `error` object of a response body; an absent `fields` is left out. */
  datatype ErrorBody = ErrorBody(code: string, message: string, fields: Option<Fields>)

  datatype Response = Response(status: int, error: ErrorBody)

  /** `path.join('.')`. */
  function JoinPath(path: seq<string>): string
    decreases |path|
  {
    if path == [] then ""
    else if |path| == 1 then path[0]
    else path[0] + "." + JoinPath(path[1..])
  }

  /** One step of the grouping loop: append the issue's message to its key,
      creating the key with an empty list first if it is missing. */
  function AddIssue(fields: Fields, issue: Issue): Fields {
    var key := JoinPath(issue.path);
    var prior := if key in fields then fields[key] else [];
    fields[key := prior + [issue.message]]
  }

  /** The `fields` map after the loop has seen `issues`. */
  function Grouped(issues: seq<Issue>): Fields
    decreases |issues|
  {
    if issues == [] then map[] else AddIssue(Grouped(issues[..|issues| - 1]), issues[|issues| - 1])
  }

  /** The dot-joined paths of the issues. */
  function PathKeys(issues: seq<Issue>): set<string> {
    set i | 0 <= i < |issues| :: JoinPath(issues[i].path)
  }

  /** The messages of the issues whose path joins to `key`, in issue order. */
  function MessagesAt(issues: seq<Issue>, key: string): seq<string>
    decreases |issues|
  {
    if issues == [] then []
    else
      var last := issues[|issues| - 1];
      MessagesAt(issues[..|issues| - 1], key) + (if JoinPath(last.path) == key then [last.message] else [])
  }

  /** The number of messages held in a fields map. */
  ghost function MessageCount(fields: Fields): nat
    decreases |fields|
  {
    if fields == map[] then 0
    else
      var key :| key in fields;
      assert |fields - {key}| < |fields| by {
        assert (fields - {key}).Keys == fields.Keys - {key};
      }
      |fields[key]| + MessageCount(fields - {key})
  }

  /** The count does not depend on which key is taken out first. */
  lemma {:induction false} MessageCountRemove(fields: Fields, key: string)
    requires key in fields
    ensures MessageCount(fields) == |fields[key]| + MessageCount(fields - {key})
    decreases |fields|
  {
    var chosen :| chosen in fields && MessageCount(fields) == |fields[chosen]| + MessageCount(fields - {chosen});
    if chosen != key {
      var rest := fields - {chosen};
      assert (fields - {chosen}).Keys == fields.Keys - {chosen};
      assert (fields - {key}).Keys == fields.Keys - {key};
      MessageCountRemove(rest, key);
      MessageCountRemove(fields - {key}, chosen);
      assert rest - {key} == (fields - {key}) - {chosen};
    }
  }

  lemma {:induction false} MessageCountAdd(fields: Fields, issue: Issue)
    ensures MessageCount(AddIssue(fields, issue)) == MessageCount(fields) + 1
  {
    var key := JoinPath(issue.path);
    var added := AddIssue(fields, issue);
    MessageCountRemove(added, key);
    assert added - {key} == fields - {key};
    if key in fields {
      MessageCountRemove(fields, key);
    } else {
      assert fields - {key} == fields;
    }
  }

  /** The keys of the grouped map are exactly the dot-joined issue paths. */
  lemma {:induction false} GroupedKeys(issues: seq<Issue>)
    ensures Grouped(issues).Keys == PathKeys(issues)
    decreases |issues|
  {
    if issues != [] {
      var init, last := issues[..|issues| - 1], issues[|issues| - 1];
      GroupedKeys(init);
      assert PathKeys(issues) == PathKeys(init) + {JoinPath(last.path)} by {
        forall i | 0 <= i < |init| ensures init[i] == issues[i] { }
      }
    }
  }

  /** Under each key are that path's messages in issue order, never an
      empty list. */
  lemma {:induction false} GroupedMessages(issues: seq<Issue>, key: string)
    requires key in Grouped(issues)
    ensures Grouped(issues)[key] == MessagesAt(issues, key) && Grouped(issues)[key] != []
    decreases |issues|
  {
    var init, last := issues[..|issues| - 1], issues[|issues| - 1];
    if key != JoinPath(last.path) {
      GroupedMessages(init, key);
    } else if key in Grouped(init) {
      GroupedMessages(init, key);
    } else {
      assert Grouped(issues)[key] == [last.message];
      if init != [] {
        NoMessagesOffKeys(init, key);
      }
    }
  }

  /** A path no issue has yields no messages. */
  lemma {:induction false} NoMessagesOffKeys(issues: seq<Issue>, key: string)
    requires key !in Grouped(issues)
    ensures MessagesAt(issues, key) == []
    decreases |issues|
  {
    if issues != [] {
      var init := issues[..|issues| - 1];
      assert key !in Grouped(init);
      NoMessagesOffKeys(init, key);
    }
  }

  /** Every issue contributes exactly one message. */
  lemma {:induction false} GroupedCount(issues: seq<Issue>)
    ensures MessageCount(Grouped(issues)) == |issues|
    decreases |issues|
  {
    if issues != [] {
      var init := issues[..|issues| - 1];
      GroupedCount(init);
      MessageCountAdd(Grouped(init), issues[|issues| - 1]);
    }
  }

  /** The `forEach` over the issues that builds `fields` in place. */
  method GroupFields(issues: seq<Issue>) returns (fields: Fields)
    ensures fields == Grouped(issues)
    ensures fields.Keys == PathKeys(issues)
    ensures forall key :: key in fields ==> fields[key] == MessagesAt(issues, key) && fields[key] != []
  {
    fields := map[];
    var i := 0;
    while i < |issues|
      invariant 0 <= i <= |issues|
      invariant fields == Grouped(issues[..i])
    {
      var e := issues[i];
      var path := JoinPath(e.path);
      if path !in fields {
        fields := fields[path := []];
      }
      fields := fields[path := fields[path] + [e.message]];
      assert issues[..i + 1][..i] == issues[..i];
      i := i + 1;
    }
    assert issues[..i] == issues;
    GroupedKeys(issues);
    forall key | key in fields ensures fields[key] == MessagesAt(issues, key) && fields[key] != [] {
      GroupedMessages(issues, key);
    }
  }

  const ValidationStatus := 400
  const InternalStatus := 500
  const NotFoundStatus := 404

  /** `errorHandler`: a validation error is a 400 `VALIDATION_ERROR` carrying
      the issues grouped by field; an `AppError` keeps its own status, code,
      message and fields; anything else is a 500 `INTERNAL` whose fixed
      message reveals nothing of the error. */
  method HandleError(err: Error) returns (resp: Response)
    ensures err.ValidationError? ==>
              && resp.status == ValidationStatus
              && resp.error.code == "VALIDATION_ERROR"
              && resp.error.message == "Validation failed"
              && resp.error.fields == Some(Grouped(err.issues))
    ensures err.AppError? ==>
              resp == Response(err.statusCode, ErrorBody(err.code, err.message, err.fields))
    ensures err.OtherError? ==>
              resp == Response(InternalStatus, ErrorBody("INTERNAL", "Internal server error", None))
  {
    match err
    case ValidationError(issues) =>
      var fields := GroupFields(issues);
      resp := Response(ValidationStatus, ErrorBody("VALIDATION_ERROR", "Validation failed", Some(fields)));
    case AppError(statusCode, code, message, fields) =>
      resp := Response(statusCode, ErrorBody(code, message, fields));
    case OtherError(_, _) =>
      resp := Response(InternalStatus, ErrorBody("INTERNAL", "Internal server error", None));
  }

  const FieldNames: set<string> := {"title", "description", "status"}

  /** A field path joins to the field's name. */
  lemma FieldPathKey(p: seq<string>)
    requires p in FieldPaths
    ensures JoinPath(p) in FieldNames
  {
  }

  /** Issues on the three item fields group under the field names. */
  lemma FieldIssuesGroupByName(issues: seq<Issue>)
    requires issues != []
    requires forall i :: 0 <= i < |issues| ==> issues[i].path in FieldPaths
    ensures Grouped(issues) != map[]
    ensures Grouped(issues).Keys <= FieldNames
  {
    GroupedKeys(issues);
    forall key | key in PathKeys(issues) ensures key in FieldNames {
      var i :| 0 <= i < |issues| && key == JoinPath(issues[i].path);
      FieldPathKey(issues[i].path);
    }
    assert JoinPath(issues[0].path) in Grouped(issues);
  }

  /** A body rejected by the create or the update schema yields a non-empty
      `fields` map whose keys are among the three field names. */
  lemma RejectionFields(raw: RawItem)
    ensures ParseCreate(raw).Failure? ==>
              var fields := Grouped(ParseCreate(raw).error);
              fields != map[] && fields.Keys <= FieldNames
    ensures ParseUpdate(raw).Failure? ==>
              var fields := Grouped(ParseUpdate(raw).error);
              fields != map[] && fields.Keys <= FieldNames
  {
    var c, u := ParseCreate(raw), ParseUpdate(raw);
    if c.Failure? {
      FieldIssuesGroupByName(c.error);
    }
    if u.Failure? {
      FieldIssuesGroupByName(u.error);
    }
  }

  /** The message of an unmatched route. */
  function RouteNotFoundMessage(verb: string, path: string): string {
    "Route " + verb + " " + path + " not found"
  }

  /** `notFoundHandler`: 404 `NOT_FOUND` naming the request's method and
      path. */
  function NotFound(verb: string, path: string): (r: Response)
    ensures r.status == NotFoundStatus && r.error.code == "NOT_FOUND" && r.error.fields.None?
    ensures r.error.message == RouteNotFoundMessage(verb, path)
  {
    Response(NotFoundStatus, ErrorBody("NOT_FOUND", RouteNotFoundMessage(verb, path), None))
  }

  /** In the message, the method is followed by the first space after
      `Route `. */
  lemma SpaceAfterMethod(verb: string, path: string)
    requires ' ' !in verb
    ensures var s := RouteNotFoundMessage(verb, path);
            && 6 + |verb| < |s| && s[6 + |verb|] == ' '
            && s[6..6 + |verb|] == verb
            && forall j :: 6 <= j < 6 + |verb| ==> s[j] != ' '
  {
  }

  /** The message names the route unambiguously: HTTP methods hold no
      space, so the method and the path can be read back from it. */
  lemma NotFoundNamesRoute(m1: string, p1: string, m2: string, p2: string)
    requires ' ' !in m1 && ' ' !in m2
    requires RouteNotFoundMessage(m1, p1) == RouteNotFoundMessage(m2, p2)
    ensures m1 == m2 && p1 == p2
  {
    var s := RouteNotFoundMessage(m1, p1);
    SpaceAfterMethod(m1, p1);
    SpaceAfterMethod(m2, p2);
    assert |m1| == |m2|;
    assert s == "Route " + m1 + " " + p1 + " not found";
    assert s == "Route " + m2 + " " + p2 + " not found";
    assert p1 == s[7 + |m1|..|s| - 10];
    assert p2 == s[7 + |m2|..|s| - 10];
  }
}
