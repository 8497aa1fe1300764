/** The JSON API controller for universities: five actions over the
    universities table, the shared id lookup that runs before show, update and
    destroy, and the strong-parameter filter applied to request bodies. The
    table is an in-memory map from id to record with a counter that hands out
    fresh ids, as the database's primary-key sequence does. */
module Controller {
  import opened Validation

  datatype Option<T> = None | Some(value: T)

  /** A request parameter value: a scalar (kept as its text), an array, or a
      nested hash. */
  datatype ParamValue =
    | Scalar(text: string)
    | List(items: seq<ParamValue>)
    | Hash(entries: map<string, ParamValue>)

  /** The permitted attributes of one request; None for an attribute the
      request did not submit or submitted in a shape that is not permitted. */
  datatype Attributes = Attributes(
    name: Option<string>,
    location: Option<string>,
    website: Option<string>,
    contactEmails: Option<seq<string>>)

  const PermittedKeys: set<string> := {"name", "location", "website", "contact_emails"}

  /** A key permitted as a scalar keeps its value only when it is a scalar. */
  function PermitScalar(params: map<string, ParamValue>, key: string): (r: Option<string>)
  {
    if key in params && params[key].Scalar? then Some(params[key].text) else None
  }

  predicate AllScalars(items: seq<ParamValue>)
  {
    forall i :: 0 <= i < |items| ==> items[i].Scalar?
  }

  function Texts(items: seq<ParamValue>): (r: seq<string>)
    requires AllScalars(items)
    ensures |r| == |items|
    ensures forall i :: 0 <= i < |items| ==> r[i] == items[i].text
  {
    if items == [] then [] else [items[0].text] + Texts(items[1..])
  }

  /** `contact_emails: []` keeps the value only when it is an array of scalars. */
  function PermitScalarList(params: map<string, ParamValue>, key: string): (r: Option<seq<string>>)
  {
    if key in params && params[key].List? && AllScalars(params[key].items)
    then Some(Texts(params[key].items))
    else None
  }

  /** university_params: `permit(:name, :location, :website, contact_emails: [])`
      on the "university" object of the request. */
  function UniversityParams(params: map<string, ParamValue>): (r: Attributes)
  {
    Attributes(
      PermitScalar(params, "name"),
      PermitScalar(params, "location"),
      PermitScalar(params, "website"),
      PermitScalarList(params, "contact_emails"))
  }

  /** Assigning attributes to a record: submitted attributes replace the
      record's, the others stay. */
  function Assign(u: University, a: Attributes): (r: University)
  {
    University(
      if a.name.Some? then a.name.value else u.name,
      if a.location.Some? then a.location.value else u.location,
      if a.website.Some? then a.website.value else u.website,
      if a.contactEmails.Some? then a.contactEmails.value else u.contactEmails)
  }

  /** `University.new`: nil strings (written "") and the column default [] for
      contact_emails. */
  const NewUniversity := University("", "", "", [])

  datatype Status = Ok | Created | NoContent | NotFound | UnprocessableEntity

  /** The HTTP status code Rails sends for each status symbol. */
  function Code(s: Status): (r: int)
  {
    match s
    case Ok => 200
    case Created => 201
    case NoContent => 204
    case NotFound => 404
    case UnprocessableEntity => 422
  }

  datatype Row = Row(id: int, university: University)

  /** The rendered body: one record, a list of records, `{error: ...}`,
      `{errors: [...]}`, or nothing (`head :no_content`). */
  datatype Body =
    | One(row: Row)
    | Many(rows: seq<Row>)
    | NotFoundError(error: string)
    | ValidationErrors(errors: seq<string>)
    | Empty

  datatype Response = Response(status: Status, body: Body)

  const NotFoundMessage := "University not found"

  /** What set_university renders when the id has no row. */
  const NotFoundResponse := Response(NotFound, NotFoundError(NotFoundMessage))

  /** The 422 response carrying the record's full error messages. */
  function Unprocessable(errors: seq<FieldError>): (r: Response)
  {
    Response(UnprocessableEntity, ValidationErrors(FullMessages(errors)))
  }

  class UniversitiesController {
    /** The abstract blank/URL/email tests validation uses. */
    const rules: Rules
    /** The universities table. */
    var table: map<int, University>
    /** The next id the primary-key sequence hands out. */
    var nextId: int

    /** Every stored row passed validation, and every id is below the next
        one handed out, so new ids are fresh. */
    ghost predicate Valid()
      reads this
    {
      IdsBelowNext() && RowsConform()
    }

    /** Every id in use lies in 1 .. nextId - 1. */
    ghost predicate IdsBelowNext()
      reads this
    {
      1 <= nextId && forall id :: id in table ==> 1 <= id < nextId
    }

    /** No row was stored without passing validation. */
    ghost predicate RowsConform()
      reads this
    {
      forall id :: id in table ==> Conforms(rules, table[id])
    }

    constructor (rules: Rules)
      ensures Valid()
      ensures this.rules == rules && table == map[] && nextId == 1
    {
      this.rules := rules;
      table := map[];
      nextId := 1;
    }

    /** set_university: `University.find(id)`, or the not-found response that
        halts show, update and destroy. */
    function SetUniversity(id: int): (r: Option<University>)
      reads this
      ensures r.Some? <==> id in table
      ensures r.Some? ==> r.value == table[id]
    {
      if id in table then Some(table[id]) else None
    }

    /** GET /universities: every row, each once, in primary-key order. */
    method Index() returns (resp: Response)
      requires IdsBelowNext()
      ensures resp == Response(Ok, Many(RowsBetween(table, 1, nextId)))
      ensures |resp.body.rows| == |table|
      ensures forall r :: r in resp.body.rows <==> r.id in table && table[r.id] == r.university
    {
      var rows: seq<Row> := [];
      for id := 1 to nextId
        invariant rows == RowsBetween(table, 1, id)
      {
        if id in table {
          rows := rows + [Row(id, table[id])];
        }
      }
      AllRows(table, nextId);
      resp := Response(Ok, Many(rows));
    }

    /** GET /universities/:id */
    method Show(id: int) returns (resp: Response)
      ensures id in table ==> resp == Response(Ok, One(Row(id, table[id])))
      ensures id !in table ==> resp == NotFoundResponse
    {
      var found := SetUniversity(id);
      if found.None? {
        return NotFoundResponse;
      }
      resp := Response(Ok, One(Row(id, found.value)));
    }

    /** POST /universities: build a new record from the permitted attributes,
        validate it, and insert it under a fresh id only if it is valid. */
    method Create(params: map<string, ParamValue>) returns (resp: Response)
      requires Valid()
      modifies this
      ensures Valid()
      ensures var u := Assign(NewUniversity, UniversityParams(params));
        if Conforms(rules, u) then
          && old(nextId) !in old(table)
          && table == old(table)[old(nextId) := u]
          && |table| == |old(table)| + 1
          && nextId == old(nextId) + 1
          && resp == Response(Created, One(Row(old(nextId), u)))
        else
          && table == old(table)
          && nextId == old(nextId)
          && resp == Unprocessable(Errors(rules, u))
    {
      var u := Assign(NewUniversity, UniversityParams(params));
      var errors := RunValidations(rules, u);
      if errors == [] {
        var id := nextId;
        table := table[id := u];
        nextId := nextId + 1;
        resp := Response(Created, One(Row(id, u)));
      } else {
        resp := Unprocessable(errors);
      }
    }

    /** PUT /universities/:id: assign the permitted attributes to the stored
        row, validate the merged record, and store it only if it is valid. */
    method Update(id: int, params: map<string, ParamValue>) returns (resp: Response)
      requires Valid()
      modifies this
      ensures Valid()
      ensures nextId == old(nextId)
      ensures id !in old(table) ==> table == old(table) && resp == NotFoundResponse
      ensures id in old(table) ==>
        var u := Assign(old(table)[id], UniversityParams(params));
        if Conforms(rules, u) then
          && table == old(table)[id := u]
          && resp == Response(Ok, One(Row(id, u)))
        else
          && table == old(table)
          && resp == Unprocessable(Errors(rules, u))
      ensures table.Keys == old(table).Keys
      ensures forall other :: other in table && other != id ==> table[other] == old(table)[other]
    {
      var found := SetUniversity(id);
      if found.None? {
        return NotFoundResponse;
      }
      var u := Assign(found.value, UniversityParams(params));
      var errors := RunValidations(rules, u);
      if errors == [] {
        table := table[id := u];
        resp := Response(Ok, One(Row(id, u)));
      } else {
        resp := Unprocessable(errors);
      }
    }

    /** DELETE /universities/:id */
    method Destroy(id: int) returns (resp: Response)
      requires Valid()
      modifies this
      ensures Valid()
      ensures nextId == old(nextId)
      ensures id !in old(table) ==> table == old(table) && resp == NotFoundResponse
      ensures id in old(table) ==>
        && table == old(table) - {id}
        && |table| == |old(table)| - 1
        && resp == Response(NoContent, Empty)
    {
      var found := SetUniversity(id);
      if found.None? {
        return NotFoundResponse;
      }
      table := table - {id};
      resp := Response(NoContent, Empty);
    }
  }

  // -----------------------------------------------------------------------
  // The rows `University.all` returns

  /** The rows of `t` whose ids lie in lo .. hi - 1, in ascending id order. */
  function RowsBetween(t: map<int, University>, lo: int, hi: int): (r: seq<Row>)
    decreases hi - lo
  {
    if hi <= lo then []
    else RowsBetween(t, lo, hi - 1) + (if hi - 1 in t then [Row(hi - 1, t[hi - 1])] else [])
  }

  /** The ids of `t` in lo .. hi - 1. */
  function KeysBetween(t: map<int, University>, lo: int, hi: int): (r: set<int>)
  {
    set k | k in t && lo <= k < hi
  }

  /** A row is listed exactly when it is a row of the table in the id range. */
  lemma {:induction false} RowsBetweenMembership(t: map<int, University>, lo: int, hi: int, r: Row)
    ensures r in RowsBetween(t, lo, hi) <==> lo <= r.id < hi && r.id in t && t[r.id] == r.university
    decreases hi - lo
  {
    if hi > lo {
      RowsBetweenMembership(t, lo, hi - 1, r);
    }
  }

  /** Rows are listed in strictly ascending id order, so no row twice. */
  lemma {:induction false} RowsBetweenAscending(t: map<int, University>, lo: int, hi: int)
    ensures forall i, j :: 0 <= i < j < |RowsBetween(t, lo, hi)| ==>
      RowsBetween(t, lo, hi)[i].id < RowsBetween(t, lo, hi)[j].id
    decreases hi - lo
  {
    if hi > lo {
      var prefix := RowsBetween(t, lo, hi - 1);
      RowsBetweenAscending(t, lo, hi - 1);
      forall i | 0 <= i < |prefix| ensures prefix[i].id < hi - 1 {
        RowsBetweenMembership(t, lo, hi - 1, prefix[i]);
      }
    }
  }

  /** One row per id of the table in the range. */
  lemma {:induction false} RowsBetweenCount(t: map<int, University>, lo: int, hi: int)
    ensures |RowsBetween(t, lo, hi)| == |KeysBetween(t, lo, hi)|
    decreases hi - lo
  {
    if hi <= lo {
      forall k | k in KeysBetween(t, lo, hi) ensures false { }
      assert KeysBetween(t, lo, hi) == {};
    } else {
      RowsBetweenCount(t, lo, hi - 1);
      var smaller := KeysBetween(t, lo, hi - 1);
      var added: set<int> := if hi - 1 in t then {hi - 1} else {};
      forall k | k in KeysBetween(t, lo, hi) ensures k in smaller + added { }
      forall k | k in smaller + added ensures k in KeysBetween(t, lo, hi) { }
      assert KeysBetween(t, lo, hi) == smaller + added;
      assert hi - 1 !in smaller;
    }
  }

  /** When every id lies in 1 .. next - 1, the rows in that range are all the
      table's rows, each once. */
  lemma AllRows(t: map<int, University>, next: int)
    requires forall id :: id in t ==> 1 <= id < next
    ensures |RowsBetween(t, 1, next)| == |t|
    ensures forall r :: r in RowsBetween(t, 1, next) <==> r.id in t && t[r.id] == r.university
  {
    RowsBetweenCount(t, 1, next);
    forall k | k in KeysBetween(t, 1, next) ensures k in t.Keys { }
    forall k | k in t.Keys ensures k in KeysBetween(t, 1, next) { }
    assert KeysBetween(t, 1, next) == t.Keys;
    forall r ensures r in RowsBetween(t, 1, next) <==> r.id in t && t[r.id] == r.university {
      RowsBetweenMembership(t, 1, next, r);
    }
  }

  // -----------------------------------------------------------------------
  // Facts about the request filter and the merge

  /** Only name, location, website and contact_emails are read from the
      request: two requests that agree on those keys give the same attributes. */
  lemma UniversityParamsIgnoresOtherKeys(p: map<string, ParamValue>, q: map<string, ParamValue>)
    requires forall k :: k in PermittedKeys ==> (k in p <==> k in q)
    requires forall k :: k in PermittedKeys && k in p ==> p[k] == q[k]
    ensures UniversityParams(p) == UniversityParams(q)
  {
    assert "name" in PermittedKeys && "location" in PermittedKeys;
    assert "website" in PermittedKeys && "contact_emails" in PermittedKeys;
  }

  /** A submitted attribute replaces the record's, and only in the shape the
      filter permits. */
  lemma UniversityParamsShapes(p: map<string, ParamValue>)
    ensures UniversityParams(p).name.Some? <==> "name" in p && p["name"].Scalar?
    ensures UniversityParams(p).location.Some? <==> "location" in p && p["location"].Scalar?
    ensures UniversityParams(p).website.Some? <==> "website" in p && p["website"].Scalar?
    ensures UniversityParams(p).name.Some? ==> UniversityParams(p).name.value == p["name"].text
    ensures UniversityParams(p).location.Some? ==> UniversityParams(p).location.value == p["location"].text
    ensures UniversityParams(p).website.Some? ==> UniversityParams(p).website.value == p["website"].text
    ensures UniversityParams(p).contactEmails.Some? <==>
      "contact_emails" in p && p["contact_emails"].List? && AllScalars(p["contact_emails"].items)
    ensures UniversityParams(p).contactEmails.Some? ==>
      && |UniversityParams(p).contactEmails.value| == |p["contact_emails"].items|
      && forall i :: 0 <= i < |p["contact_emails"].items| ==>
           UniversityParams(p).contactEmails.value[i] == p["contact_emails"].items[i].text
  {
  }

  /** Assigning attributes changes exactly the submitted fields: an
      attribute that was not submitted keeps the record's value. */
  lemma AssignOnlySubmitted(u: University, a: Attributes)
    ensures a.name.None? ==> Assign(u, a).name == u.name
    ensures a.location.None? ==> Assign(u, a).location == u.location
    ensures a.website.None? ==> Assign(u, a).website == u.website
    ensures a.contactEmails.None? ==> Assign(u, a).contactEmails == u.contactEmails
    ensures a.name.Some? ==> Assign(u, a).name == a.name.value
    ensures a.location.Some? ==> Assign(u, a).location == a.location.value
    ensures a.website.Some? ==> Assign(u, a).website == a.website.value
    ensures a.contactEmails.Some? ==> Assign(u, a).contactEmails == a.contactEmails.value
  {
  }

  /** Assigning the same attributes twice is the same as assigning them once,
      and an empty attribute set assigns nothing. */
  lemma AssignIdempotent(u: University, a: Attributes)
    ensures Assign(Assign(u, a), a) == Assign(u, a)
    ensures Assign(u, UniversityParams(map[])) == u
  {
  }
}
