/** The public contact form: a submission becomes a `contacts` row only when its required fields are filled. */
module Contacts {
  import opened Store

  /** The posted form: field name to value; a field the browser did not send is absent. */
  type Form = map<string, string>

  /** The fields read with `request.form[...]`, whose absence raises. */
  const RequiredKeys: set<string> := {"name", "email", "genre", "user-type", "message"}

  datatype ContactOutcome =
    | Received
    | MissingRequired    // name, e-mail or message is empty
    | SubmissionError    // a field read raised; the generic error is shown

  /** A submission that reaches the INSERT: every read field was sent and name, e-mail and message are non-empty. */
  predicate Acceptable(form: Form)
  {
    && RequiredKeys <= form.Keys
    && form["name"] != "" && form["email"] != "" && form["message"] != ""
  }

  /** The row a submission inserts; the phone number defaults to the empty string. */
  function RowOf(form: Form, now: int): Contact
    requires RequiredKeys <= form.Keys
  {
    Contact(form["name"], form["email"], if "tel" in form then form["tel"] else "",
            form["genre"], form["user-type"], form["message"], now)
  }

  /** The POST branch of `access`. */
  function SubmitContact(db: Db, form: Form, now: int): (r: (Db, ContactOutcome))
    ensures r.1 == Received <==> Acceptable(form)
    ensures r.1 != Received ==> r.0 == db
    ensures r.1 == MissingRequired <==> RequiredKeys <= form.Keys && !Acceptable(form)
    ensures r.1 == Received ==>
      var id := db.nextContactId;
      && r.0.contacts.Keys == db.contacts.Keys + {id}
      && r.0.contacts[id].name == form["name"]
      && r.0.contacts[id].email == form["email"]
      && r.0.contacts[id].genre == form["genre"]
      && r.0.contacts[id].userType == form["user-type"]
      && r.0.contacts[id].message == form["message"]
      && r.0.contacts[id].phone == (if "tel" in form then form["tel"] else "")
      && r.0.contacts[id].createdAt == now
      && (forall j :: j in db.contacts && j != id ==> r.0.contacts[j] == db.contacts[j])
      && r.0.users == db.users && r.0.tokens == db.tokens
      && r.0.nextContactId == id + 1
      && r.0.nextUserId == db.nextUserId && r.0.nextTokenId == db.nextTokenId
  {
    if !(RequiredKeys <= form.Keys) then (db, SubmissionError)
    else if form["name"] == "" || form["email"] == "" || form["message"] == "" then (db, MissingRequired)
    else
      var id := db.nextContactId;
      (db.(contacts := db.contacts[id := RowOf(form, now)], nextContactId := id + 1), Received)
  }

  /** A submission keeps every constraint, and an accepted one adds exactly one row. */
  lemma SubmitKeepsWf(db: Db, form: Form, now: int)
    requires Wf(db)
    ensures Wf(SubmitContact(db, form, now).0)
    ensures SubmitContact(db, form, now).1 == Received ==> |SubmitContact(db, form, now).0.contacts| == |db.contacts| + 1
  {
  }

  /** A message left empty is turned away, and nothing is stored. */
  lemma EmptyMessageRejected(db: Db, form: Form, now: int)
    requires RequiredKeys <= form.Keys && form["message"] == ""
    ensures SubmitContact(db, form, now) == (db, MissingRequired)
  {
  }
}
