/** The item record and the request-body validation applied before it is
    created or updated: `itemSchema` and its partial form `itemUpdateSchema`. */
module ItemSchema {
  import opened Wrappers
  import opened Strings

  datatype Status = Active | Inactive

  const StatusNames: set<string> := {"active", "inactive"}

  /** The text stored in the `status` column. */
  function StatusName(s: Status): (r: string)
    ensures r in StatusNames
    ensures ParseStatus(r) == Some(s)
  {
    match s
    case Active => "active"
    case Inactive => "inactive"
  }

  /** The enum check on `status`: only the two names are accepted. */
  function ParseStatus(name: string): (r: Option<Status>)
    ensures r.Some? <==> name in StatusNames
  {
    if name == "active" then Some(Active)
    else if name == "inactive" then Some(Inactive)
    else None
  }

  /** A stored item; `createdAt` and `updatedAt` are ISO-8601 timestamps. */
  datatype Item = Item(
    id: string,
    title: string,
    description: string,
    status: Status,
    createdAt: string,
    updatedAt: string)

  /** One validation issue: the path of the offending field and its message. */
  datatype Issue = Issue(path: seq<string>, message: string)

  /** The three fields of a request body as received; `None` is an absent key. */
  datatype RawItem = RawItem(title: Option<string>, description: Option<string>, status: Option<string>)

  /** The validated body of a create request. */
  datatype CreateInput = CreateInput(title: string, description: Option<string>, status: Option<Status>)

  /** The validated body of an update request: each field may be absent. */
  datatype UpdateInput = UpdateInput(title: Option<string>, description: Option<string>, status: Option<Status>)

  const MinTitleLength := 2
  const MaxTitleLength := 80
  const MaxDescriptionLength := 500
  const DefaultDescription := ""
  const DefaultStatus := Active

  const FieldPaths: set<seq<string>> := {["title"], ["description"], ["status"]}

  /** The title's length bounds; lengths are counted as JavaScript does. */
  predicate ValidTitle(title: string) {
    MinTitleLength <= Utf16Length(title) <= MaxTitleLength
  }

  predicate ValidDescription(description: string) {
    Utf16Length(description) <= MaxDescriptionLength
  }

  /** Issues raised by the title's `min(2)` and `max(80)` checks, in that order. */
  function TitleIssues(title: string): (r: seq<Issue>)
    ensures r == [] <==> ValidTitle(title)
    ensures forall i :: 0 <= i < |r| ==> r[i].path == ["title"]
  {
    var n := Utf16Length(title);
    (if n < MinTitleLength then [Issue(["title"], "Title must be at least 2 characters")] else [])
    + (if n > MaxTitleLength then [Issue(["title"], "Title must be at most 80 characters")] else [])
  }

  function DescriptionIssues(description: string): (r: seq<Issue>)
    ensures r == [] <==> ValidDescription(description)
    ensures forall i :: 0 <= i < |r| ==> r[i].path == ["description"]
  {
    if Utf16Length(description) > MaxDescriptionLength then
      [Issue(["description"], "Description must be at most 500 characters")]
    else []
  }

  const EnumMessagePrefix := "Invalid enum value. Expected 'active' | 'inactive', received '"

  function StatusIssues(status: string): (r: seq<Issue>)
    ensures r == [] <==> status in StatusNames
    ensures forall i :: 0 <= i < |r| ==> r[i].path == ["status"]
  {
    if ParseStatus(status).Some? then []
    else [Issue(["status"], EnumMessagePrefix + status + "'")]
  }

  /** Issues for an optional field: none when the key is absent. */
  function OptionalIssues(field: Option<string>, check: string -> seq<Issue>): seq<Issue> {
    match field
    case None => []
    case Some(v) => check(v)
  }

  /** All issues `itemSchema` reports for a body, in field order. */
  function CreateIssues(raw: RawItem): (r: seq<Issue>)
    ensures r == [] <==> AcceptedByCreate(raw)
    ensures forall i :: 0 <= i < |r| ==> r[i].path in FieldPaths
  {
    (match raw.title
     case None => [Issue(["title"], "Required")]
     case Some(t) => TitleIssues(t))
    + OptionalIssues(raw.description, DescriptionIssues)
    + OptionalIssues(raw.status, StatusIssues)
  }

  /** All issues `itemUpdateSchema` reports for a body, in field order. */
  function UpdateIssues(raw: RawItem): (r: seq<Issue>)
    ensures r == [] <==> AcceptedByUpdate(raw)
    ensures forall i :: 0 <= i < |r| ==> r[i].path in FieldPaths
  {
    OptionalIssues(raw.title, TitleIssues)
    + OptionalIssues(raw.description, DescriptionIssues)
    + OptionalIssues(raw.status, StatusIssues)
  }

  predicate AcceptedByCreate(raw: RawItem) {
    && raw.title.Some? && ValidTitle(raw.title.value)
    && (raw.description.None? || ValidDescription(raw.description.value))
    && (raw.status.None? || raw.status.value in StatusNames)
  }

  predicate AcceptedByUpdate(raw: RawItem) {
    && (raw.title.None? || ValidTitle(raw.title.value))
    && (raw.description.None? || ValidDescription(raw.description.value))
    && (raw.status.None? || raw.status.value in StatusNames)
  }

  /** `itemSchema.parse`: accepts exactly the bodies with a title of 2..80
      code units, a description of at most 500 if any, and a status
      naming one of the two states if any; fills in the defaults `''` and
      `active`; otherwise fails with at least one issue, each on one of the
      three fields. */
  function ParseCreate(raw: RawItem): (r: Result<CreateInput, seq<Issue>>)
    ensures r.Success? <==> AcceptedByCreate(raw)
    ensures r.Success? ==> && r.value.title == raw.title.value
                           && r.value.description == Some(raw.description.GetOr(DefaultDescription))
                           && r.value.status.Some?
                           && StatusName(r.value.status.value) == raw.status.GetOr(StatusName(DefaultStatus))
    ensures r.Failure? ==> r.error != [] && forall i :: 0 <= i < |r.error| ==> r.error[i].path in FieldPaths
  {
    var issues := CreateIssues(raw);
    if issues != [] then Failure(issues)
    else Success(CreateInput(
      raw.title.value,
      Some(raw.description.GetOr(DefaultDescription)),
      Some(match raw.status case None => DefaultStatus case Some(s) => ParseStatus(s).value)))
  }

  /** `itemUpdateSchema.parse`: every field is optional and no default is
      filled in, but a supplied field obeys the same bounds as on create. */
  function ParseUpdate(raw: RawItem): (r: Result<UpdateInput, seq<Issue>>)
    ensures r.Success? <==> AcceptedByUpdate(raw)
    ensures r.Success? ==> && r.value.title == raw.title
                           && r.value.description == raw.description
                           && (r.value.status.Some? <==> raw.status.Some?)
                           && (r.value.status.Some? ==> StatusName(r.value.status.value) == raw.status.value)
    ensures r.Failure? ==> r.error != [] && forall i :: 0 <= i < |r.error| ==> r.error[i].path in FieldPaths
  {
    var issues := UpdateIssues(raw);
    if issues != [] then Failure(issues)
    else Success(UpdateInput(
      raw.title,
      raw.description,
      match raw.status case None => None case Some(s) => ParseStatus(s)))
  }

  /** Zod counts UTF-16 code units: a title written in emoji or other astral
      characters is accepted with 1 to 40 of them, not 2 to 80. */
  lemma AstralTitle(title: string)
    requires forall i :: 0 <= i < |title| ==> IsAstral(title[i])
    ensures TitleIssues(title) == [] <==> 1 <= |title| <= 40
  {
    AstralLength(title);
  }

  /** The update schema is the create schema made partial: the empty body is
      valid and changes nothing, every body the create schema accepts the
      update schema accepts too, and a body that supplies a title is accepted
      by both or by neither. */
  lemma UpdateIsPartialCreate(raw: RawItem)
    ensures ParseUpdate(RawItem(None, None, None)) == Success(UpdateInput(None, None, None))
    ensures ParseCreate(raw).Success? ==> ParseUpdate(raw).Success?
    ensures raw.title.Some? ==> (ParseCreate(raw).Success? <==> ParseUpdate(raw).Success?)
  {
  }
}
