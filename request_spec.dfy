/** The request examples of the API's own test suite, replayed against the
    controller's contracts: what a caller can conclude from the contracts
    alone, without looking inside the actions. */
module RequestSpec {
  import opened Validation
  import opened Controller

  /** The factory's attributes as a request body. */
  const ValidParams: map<string, ParamValue> := map[
    "name" := Scalar("Test University"),
    "location" := Scalar("Test Location"),
    "website" := Scalar("http://testuniversity.com"),
    "contact_emails" := List([Scalar("info@testuniversity.com")])]

  /** A controller whose table holds the factory record under id 1. */
  method WithOneUniversity(rules: Rules) returns (c: UniversitiesController)
    requires AcceptsFactory(rules)
    ensures fresh(c) && c.Valid() && c.rules == rules
    ensures c.table == map[1 := FactoryUniversity] && c.nextId == 2
  {
    c := new UniversitiesController(rules);
    FactoryParams(rules);
    var r := c.Create(ValidParams);
  }

  /** POSTing the factory's attributes builds the factory record, which is valid. */
  lemma FactoryParams(rules: Rules)
    requires AcceptsFactory(rules)
    ensures Assign(NewUniversity, UniversityParams(ValidParams)) == FactoryUniversity
    ensures Conforms(rules, FactoryUniversity)
  {
    var emails := [Scalar("info@testuniversity.com")];
    assert AllScalars(emails);
    assert Texts(emails) == ["info@testuniversity.com"];
    FactoryUniversityValid(rules);
    ValidIffConforms(rules, FactoryUniversity);
  }

  /** A controller after three POSTs of the factory's attributes. */
  method WithThreeUniversities(rules: Rules) returns (c: UniversitiesController)
    requires AcceptsFactory(rules)
    ensures fresh(c) && c.IdsBelowNext() && |c.table| == 3 && c.nextId == 4
  {
    c := WithOneUniversity(rules);
    FactoryParams(rules);
    var r := c.Create(ValidParams);
    assert |c.table| == 2;
    r := c.Create(ValidParams);
    assert Code(r.status) == 201;
  }

  /** POST three times, then GET /index lists three rows and GET /show on
      an unknown id is a 404 with the fixed message. */
  method IndexAndShow(rules: Rules)
    requires AcceptsFactory(rules)
  {
    var c := WithThreeUniversities(rules);
    var r := c.Index();
    assert |r.body.rows| == 3;
    r := c.Show(9999);
    assert Code(r.status) == 404 && r.body.error == "University not found";
  }

  /** PUT with a blank name: 422 with "Name can't be blank", row unchanged. */
  method UpdateBlankName(rules: Rules)
    requires AcceptsFactory(rules)
  {
    var c := WithOneUniversity(rules);
    var blankName := map["name" := Scalar("")];
    ghost var merged := Assign(FactoryUniversity, UniversityParams(blankName));
    assert merged.name == "" by {
      assert PermitScalar(blankName, "name") == Some("");
    }
    BlankNameMessage(rules, merged);
    ValidIffConforms(rules, merged);
    var r := c.Update(1, blankName);
    assert r == Unprocessable(Errors(rules, merged));
    assert Code(r.status) == 422 && "Name can't be blank" in r.body.errors;
    assert c.table[1] == FactoryUniversity;
  }

  /** PUT with a new name: 200 and only the name changes. */
  method UpdateName(rules: Rules)
    requires AcceptsFactory(rules) && !rules.blank("Updated Name")
  {
    var c := WithOneUniversity(rules);
    var newName := map["name" := Scalar("Updated Name")];
    ghost var merged := University("Updated Name", "Test Location", "http://testuniversity.com", ["info@testuniversity.com"]);
    assert Assign(FactoryUniversity, UniversityParams(newName)) == merged;
    assert Conforms(rules, merged);
    var r := c.Update(1, newName);
    assert Code(r.status) == 200 && c.table[1] == merged;
  }

  /** DELETE: 204 and one row fewer, and the id is then not found. */
  method DestroyThenShow(rules: Rules)
    requires AcceptsFactory(rules)
  {
    var c := WithOneUniversity(rules);
    var r := c.Destroy(1);
    assert Code(r.status) == 204 && |c.table| == 0;
    r := c.Show(1);
    assert r == NotFoundResponse;
  }
}
