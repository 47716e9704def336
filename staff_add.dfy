/**
 * The add-agent form action: validate name and e-mail, upload the optional portrait
 * to the agents' folder, and create the agent row.
 */
module StaffAdd {
  import opened Wrappers
  import opened Validation
  import opened Records
  import opened Media

  datatype AgentForm = AgentForm(
    name: Option<string>,
    email: Option<string>,
    phone: Option<string>,
    imageUrl: Option<File>)

  /** Failures echo the name, the e-mail and the coerced phone back to the form. */
  datatype Outcome =
    | Added(addedName: string)
    | Failure(status: int, error: string, name: Option<string>, email: Option<string>, phone: Option<string>)

  const MissingFields := "Name and Email are required."
  const BadEmail := "Invalid email format."
  const UploadFailed := "Image upload failed: Agent image upload failed."
  const SaveFailed := "Failed to save agent to database."

  function EmailInUse(email: string): string {
    "Email \"" + email + "\" is already in use."
  }

  /** The validation step: the message of the first check that fails, or `None`.
      `emails` are the addresses already used by agents. */
  function Check(form: AgentForm, emails: set<string>): (e: Option<string>)
    ensures e.None? <==>
      Truthy(form.name) && Truthy(form.email) && EmailShape(form.email.value) && form.email.value !in emails
    ensures !(Truthy(form.name) && Truthy(form.email)) ==> e == Some(MissingFields)
    ensures Truthy(form.name) && Truthy(form.email) && !EmailShape(form.email.value) ==> e == Some(BadEmail)
    ensures Truthy(form.name) && Truthy(form.email) && EmailShape(form.email.value) && form.email.value in emails ==>
              e == Some(EmailInUse(form.email.value))
  {
    if !(Truthy(form.name) && Truthy(form.email)) then Some(MissingFields)
    else
      EmailCharacterisation(form.email.value);
      if !IsEmail(form.email.value) then Some(BadEmail)
      else if form.email.value in emails then Some(EmailInUse(form.email.value))
      else None
  }

  /** The portrait URL, `None` when no image with content was sent. */
  function PortraitUrl(form: AgentForm, upload: Uploader): Option<string> {
    if HasContent(form.imageUrl) then upload(form.imageUrl.value.bytes, AgentFolder) else None
  }

  /** The row the action asks the database to create. */
  function NewAgent(id: string, form: AgentForm, imageUrl: Option<string>): (a: Agent)
    requires Truthy(form.name) && Truthy(form.email)
    ensures a.id == id && a.name == form.name.value && a.email == form.email.value
    ensures a.phone == OptionalText(form.phone) && a.imageUrl == imageUrl
  {
    Agent(id, form.name.value, form.email.value, OptionalText(form.phone), imageUrl)
  }

  /** The form action. `newId` is the id the database assigns; `reachable` is false when
      the database fails the create statement. `sent` are the files handed to the uploader. */
  method Submit(store: Store, form: AgentForm, upload: Uploader, newId: string, reachable: bool)
    returns (outcome: Outcome, sent: seq<File>)
    requires store.Valid()
    modifies store
    ensures store.Valid() && store.properties == old(store.properties)
    ensures var e := Check(form, old(store.Emails()));
      e.Some? ==>
        && outcome == Failure(400, e.value, form.name, form.email, OptionalText(form.phone))
        && sent == [] && store.agents == old(store.agents)
    ensures Check(form, old(store.Emails())).None? && HasContent(form.imageUrl) ==>
      sent == [form.imageUrl.value]
    ensures Check(form, old(store.Emails())).None? && !HasContent(form.imageUrl) ==> sent == []
    ensures Check(form, old(store.Emails())).None? && HasContent(form.imageUrl) && !Truthy(PortraitUrl(form, upload)) ==>
      && outcome == Failure(500, UploadFailed, form.name, form.email, OptionalText(form.phone))
      && store.agents == old(store.agents)
    ensures Check(form, old(store.Emails())).None? && !(HasContent(form.imageUrl) && !Truthy(PortraitUrl(form, upload))) ==>
      var a := NewAgent(newId, form, PortraitUrl(form, upload));
      && (reachable && old(store.CanInsertAgent(a)) ==>
            outcome == Added(a.name) && store.agents == old(store.agents)[newId := a])
      && (!(reachable && old(store.CanInsertAgent(a))) ==>
            outcome == Failure(500, SaveFailed, form.name, form.email, OptionalText(form.phone))
            && store.agents == old(store.agents))
  {
    var phone := OptionalText(form.phone);
    var e := Check(form, store.Emails());
    if e.Some? {
      return Failure(400, e.value, form.name, form.email, phone), [];
    }
    sent := [];
    var imageUrl: Option<string> := None;
    if HasContent(form.imageUrl) {
      sent := [form.imageUrl.value];
      imageUrl := upload(form.imageUrl.value.bytes, AgentFolder);
      if !Truthy(imageUrl) {
        return Failure(500, UploadFailed, form.name, form.email, phone), sent;
      }
    }
    var a := NewAgent(newId, form, imageUrl);
    var ok := false;
    if reachable {
      ok := store.InsertAgent(a);
    }
    if ok {
      outcome := Added(a.name);
    } else {
      outcome := Failure(500, SaveFailed, form.name, form.email, phone);
    }
  }

  /** An agent added through the form has an address with the checked shape that no
      other agent used: no white space, one `@`, and a dot inside the domain. */
  lemma AddedEmailFresh(form: AgentForm, emails: set<string>, id: string, imageUrl: Option<string>)
    requires Check(form, emails).None?
    ensures var a := NewAgent(id, form, imageUrl);
      a.email !in emails && EmailShape(a.email)
  {
  }
}
