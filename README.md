# University records: validation rules and CRUD controller

A Dafny model of the backend core of a small application that manages
University records (name, location, website, contact emails) through a JSON
API. It has two parts.

- `validation.dfy`, module `Validation`, models the `University` model's
  validation rules. These are presence checks on all four attributes, the
  http/https URL format check on the website, and the hand-written
  `validate_contact_emails` check. Validation is a function from a record to
  the ordered sequence of field-scoped errors that Rails would collect.
  `ValidateContactEmails` is the loop as the source runs it, appending to the
  error collection, and it is proved equal to that function. `RunValidations`
  runs the validators in Rails' declaration order.
- `controller.dfy`, module `Controller`, models the API controller. The class
  `UniversitiesController` holds the universities table as a
  `map<int, University>` and the next id the primary-key sequence hands out.
  Its methods are `Index`, `Show`, `Create`, `Update` and `Destroy`. The
  shared lookup `SetUniversity` gives the three id-based actions the same
  404 response. `UniversityParams` is the strong-parameter filter. Each action
  returns a status and a body. The class invariant `Valid()` says that every
  stored row passes validation and every id is below the next one handed out.
- `request_spec.dfy`, module `RequestSpec`, replays the examples of the API's
  request tests using only the controller's contracts. It creates factory
  records, then lists them, updates one with a blank name and with a new
  name, and deletes one.

The two regular expressions and `String#blank?` belong to Ruby and Rails.
They are fields of `Rules`, so the model takes them as parameters. The only
fact assumed about them is that the empty string is blank, which is Rails'
own definition. A nil string attribute is represented by `""`. Rails' presence
check uses `blank?` and its format check matches `value.to_s`, so nil and `""`
validate the same way. `contact_emails` is a `seq<string>`, never nil: through
this controller a create that omits it gets the column default `[]`
(db/migrate/20241119024825_create_universities.rb:7), and `permit(contact_emails: [])`
drops a value that is not an array of scalars, null included.

Two consequences of the validator order are visible in the model.
- An empty contact_emails list gets both "can't be blank" (from the presence
  rule) and "must have at least one email".
- A blank website gets "can't be blank" and also "is invalid" when the URL
  pattern rejects it.

Search, sort and pagination of the admin table are not modelled: the table
component (frontend/src/components/UniversityTable.tsx) only renders the list
it fetched.

## Model

| member | source | states |
|---|---|---|
| `Validation.FullMessages` | backend/app/controllers/api/v1/universities_controller.rb:22 | one full message per error, in order, each the field's humanized label, a space, then the message |
| `Validation.ValidateContactEmails` | app/models/university.rb:10-19 | the loop leaves the errors already collected as a prefix and appends exactly the custom validator's errors |
| `Validation.RunValidations` | app/models/university.rb:2-6 | running the validators in declaration order yields the accumulated error sequence; it is empty iff every rule holds |
| `Validation.NotValidEmailInjective` | app/models/university.rb:16 | two entries get the same "is not a valid email" message only if they are the same entry |
| `Validation.NotValidEmailDistinct` | app/models/university.rb:12-16 | a per-email message never equals "can't be blank", "must have at least one email" or "is invalid" |
| `Validation.InvalidEmailErrorsAppend` | app/models/university.rb:14-18 | the loop's messages for a concatenated list are those of the first part followed by those of the second, so they follow list order |
| `Validation.InvalidEmailErrorsMembership` | app/models/university.rb:14-18 | an error comes from the loop iff it is on contact_emails and is the message of some entry that fails the email pattern |
| `Validation.FailingEmailReported` | app/models/university.rb:14-18 | the message for a given string is present iff that string is in the list and fails the email pattern, so matching entries add nothing |
| `Validation.InvalidEmailErrorsCount` | app/models/university.rb:14-18 | at most one message per entry; none iff every entry matches; one per entry iff every entry fails |
| `Validation.ContactEmailErrorsEmptyIff` | app/models/university.rb:11-12 | an empty list gets exactly "must have at least one email" and no per-email message; that message appears iff the list is empty |
| `Validation.ContactEmailsFieldErrors` | app/models/university.rb:5-19 | the errors on contact_emails are exactly "can't be blank" and "must have at least one email" for an empty list, and exactly the loop's messages otherwise |
| `Validation.PresenceAndFormatIff` | app/models/university.rb:2-5 | "can't be blank" is on name, location or website iff that attribute is blank, and on contact_emails iff the list is empty; "is invalid" is on website iff it fails the http/https pattern |
| `Validation.ValidIffConforms` | app/models/university.rb:2-6 | errors accumulate: the record is valid (no errors) iff all presence, format and email rules hold |
| `Validation.BlankNameMessage` | app/models/university.rb:2 | a blank name makes the record invalid and its full messages include "Name can't be blank" |
| `Validation.FailingEmailMessage` | app/models/university.rb:14-16 | an entry failing the email pattern gets "`<entry>` is not a valid email" on contact_emails, and "Contact emails `<entry>` is not a valid email" among the full messages |
| `Validation.FactoryUniversityValid` | backend/spec/factories/universities.rb:3-6 | the factory record has no errors when the abstract tests accept its strings |
| `Controller.UniversitiesController.constructor` | backend/app/controllers/api/v1/universities_controller.rb:1 | starts with an empty table, id sequence at 1, invariant established |
| `Controller.UniversitiesController.SetUniversity` | backend/app/controllers/api/v1/universities_controller.rb:43-47 | the lookup finds a row iff the id is in the table, and then it is the stored row |
| `Controller.UniversitiesController.Index` | backend/app/controllers/api/v1/universities_controller.rb:5-8 | 200 with every row of the table exactly once (result size equals table size) and nothing else, changing nothing |
| `Controller.UniversitiesController.Show` | backend/app/controllers/api/v1/universities_controller.rb:11-13 | 200 with the stored row for a present id, else 404 with "University not found"; changes nothing |
| `Controller.UniversitiesController.Create` | backend/app/controllers/api/v1/universities_controller.rb:16-24 | a valid record built from the permitted attributes is inserted under a fresh id (count +1) and returned with 201; an invalid one leaves table and id sequence unchanged and returns 422 with its full messages |
| `Controller.UniversitiesController.Update` | backend/app/controllers/api/v1/universities_controller.rb:27-33 | an absent id gives 404 and no change; otherwise the permitted attributes are merged onto the row and, if the merged record is valid, only that row changes and 200 returns it; if invalid the table is unchanged and 422 carries its full messages |
| `Controller.UniversitiesController.Destroy` | backend/app/controllers/api/v1/universities_controller.rb:36-39 | an absent id gives 404 and no change; otherwise exactly that row is removed (count −1) and the response is 204 with no body |
| `Controller.RowsBetweenMembership` | backend/app/controllers/api/v1/universities_controller.rb:6 | a row is listed iff it is a stored row whose id is in the range |
| `Controller.RowsBetweenAscending` | backend/app/controllers/api/v1/universities_controller.rb:6 | listed rows have strictly ascending ids, so no row is listed twice |
| `Controller.RowsBetweenCount` | backend/app/controllers/api/v1/universities_controller.rb:6 | the listing has one row per stored id in the range |
| `Controller.AllRows` | backend/app/controllers/api/v1/universities_controller.rb:6 | when all ids lie below the next id, the listing holds exactly the table's rows and its length is the table size |
| `Controller.UniversityParamsIgnoresOtherKeys` | backend/app/controllers/api/v1/universities_controller.rb:49-51 | only name, location, website and contact_emails are read from the request; requests agreeing on those give the same attributes |
| `Controller.UniversityParamsShapes` | backend/app/controllers/api/v1/universities_controller.rb:50 | name, location and website are each taken iff submitted as a scalar, and then as its text; contact_emails iff an array of scalars, and then element by element as their texts |
| `Controller.AssignOnlySubmitted` | backend/app/controllers/api/v1/universities_controller.rb:28 | merging replaces exactly the submitted attributes and keeps the others |
| `Controller.AssignIdempotent` | backend/app/controllers/api/v1/universities_controller.rb:28 | merging the same attributes twice equals merging once; an empty attribute set merges nothing |
| `RequestSpec.FactoryParams` | backend/spec/requests/api/v1/universities_spec.rb:6-13 | posting the test's valid attributes builds the factory record, which passes validation |

## Left out

- The URI regexp, the mail-address regexp and `blank?` are Ruby and Rails library code. They are abstract predicates here, with blank("") the only assumption.
- ActiveRecord persistence, SQL, transactions, timestamps (`created_at`, `updated_at`) and database failures are not modelled. The table is an in-memory map and the id sequence a counter.
- Controller.UniversitiesController.Index: returns rows in ascending id order. The source's `University.all` has no ORDER BY, so the database promises no order. The model picks one and proves the contents, the count and the absence of duplicates.
- `params.require(:university)` rejecting a request whose `university` object is missing or empty, such as `{"university": {}}`, with a 400 response is framework behaviour and is not modelled. `Create` and `Update` take the `university` object itself, so an empty attribute set reaches validation (422 on create, 200 with no change on update) where the application answers 400.
- JSON null values in a request are not modelled. A scalar parameter is kept as its text; numbers, for example, are cast to their string form.
- HTTP routing and JSON rendering are not modelled. Statuses are an enumeration with their codes.
- The crash on a nil contact_emails at app/models/university.rb:11 cannot happen through this controller. The non-null column constraint alone would not prevent it, since it applies at INSERT after validation. What keeps nil out is the column default `[]` for a create that omits the key, and `permit(contact_emails: [])`, which drops a null value.
- Concurrency and last-write-wins between clients are out of scope: nothing in the source coordinates them.
- The React frontend (form, table, modal, pages) is UI and network code and is not part of this model.
- Validation never changes the record's attributes. This holds by construction, since records are values; no separate lemma states it.
