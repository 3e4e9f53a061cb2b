/**
 * The contact page's form logic: the form record and its error map,
 * `validateForm`, the option tables and their label lookups, `handleChange`,
 * and `handleSubmit`, which on a valid form composes the quote-request
 * e-mail and navigates to its `mailto:` URI.
 */
module ContactForm {
  import opened Wrappers
  import opened Text
  import EmailPattern
  import UriComponent
  import Mailto
  import FormField

  /** The address every quote request is sent to. */
  const ContactEmail: string := "cark98@gmail.com"

  const ProductOptions: seq<FormField.SelectOption> := [
    FormField.SelectOption("fidget-toys", "Custom Fidget Toys"),
    FormField.SelectOption("retro-dock", "Retro Radio Dock"),
    FormField.SelectOption("standby-dock", "StandBy iPhone Dock"),
    FormField.SelectOption("coasters", "Branded Coasters"),
    FormField.SelectOption("custom", "Custom Project"),
    FormField.SelectOption("other", "Other / Not Sure")
  ]

  const QuantityOptions: seq<FormField.SelectOption> := [
    FormField.SelectOption("10-25", "10-25 units"),
    FormField.SelectOption("26-50", "26-50 units"),
    FormField.SelectOption("51-100", "51-100 units"),
    FormField.SelectOption("101-250", "101-250 units"),
    FormField.SelectOption("251-500", "251-500 units"),
    FormField.SelectOption("500+", "500+ units")
  ]

  /** The form's fields, by their `name` attribute. */
  datatype Field = Name | BusinessName | Email | Phone | ProductType | Quantity | Message

  /** `FormData`: one string per field; the phone number is optional. */
  datatype FormData = FormData(
    name: string,
    businessName: string,
    email: string,
    phone: string,
    productType: string,
    quantity: string,
    message: string)
  {
    function Get(f: Field): string {
      match f
      case Name => name
      case BusinessName => businessName
      case Email => email
      case Phone => phone
      case ProductType => productType
      case Quantity => quantity
      case Message => message
    }

    /** `{ ...prev, [f]: v }`. */
    function With(f: Field, v: string): (d: FormData)
      ensures d.Get(f) == v
      ensures forall g :: g != f ==> d.Get(g) == Get(g)
    {
      match f
      case Name => this.(name := v)
      case BusinessName => this.(businessName := v)
      case Email => this.(email := v)
      case Phone => this.(phone := v)
      case ProductType => this.(productType := v)
      case Quantity => this.(quantity := v)
      case Message => this.(message := v)
    }
  }

  /** The form as first rendered: every field empty. */
  const EmptyForm := FormData("", "", "", "", "", "", "")

  /** `FormErrors`: a message for each field that failed its rule. */
  type Errors = map<Field, string>

  /** The keys `FormErrors` declares: every field but the phone number. */
  const ErrorFields: set<Field> := {Name, BusinessName, Email, ProductType, Quantity, Message}

  const NameRequired := "Name is required"
  const BusinessNameRequired := "Business name is required"
  const EmailRequired := "Email is required"
  const EmailInvalid := "Please enter a valid email address"
  const ProductTypeRequired := "Please select a product type"
  const QuantityRequired := "Please select a quantity range"
  const MessageRequired := "Please tell us about your project"

  /**
   * The error map `validateForm` builds from nothing. Every rule runs: the
   * name, business name and message must not be blank after trimming; the
   * e-mail must not be blank, and otherwise must match the pattern as typed,
   * untrimmed; the product type and quantity must not be the empty string.
   */
  function Validate(d: FormData): (errs: Errors)
    ensures errs.Keys <= ErrorFields
    ensures forall f :: f in errs ==> errs[f] != ""
    ensures Name in errs <==> AllSpace(d.name)
    ensures Name in errs ==> errs[Name] == NameRequired
    ensures BusinessName in errs <==> AllSpace(d.businessName)
    ensures BusinessName in errs ==> errs[BusinessName] == BusinessNameRequired
    ensures Email in errs <==> AllSpace(d.email) || !EmailPattern.MatchesPattern(d.email)
    ensures Email in errs ==> errs[Email] == (if AllSpace(d.email) then EmailRequired else EmailInvalid)
    ensures ProductType in errs <==> d.productType == ""
    ensures ProductType in errs ==> errs[ProductType] == ProductTypeRequired
    ensures Quantity in errs <==> d.quantity == ""
    ensures Quantity in errs ==> errs[Quantity] == QuantityRequired
    ensures Message in errs <==> AllSpace(d.message)
    ensures Message in errs ==> errs[Message] == MessageRequired
  {
    EmailPattern.IsValidEmailIffPattern(d.email);
    map f | f in ErrorFields && Rule(d, f).Some? :: Rule(d, f).value
  }

  /** The rule `validateForm` applies to one field; the phone number has none. */
  function Rule(d: FormData, f: Field): Option<string> {
    match f
    case Name => if Blank(d.name) then Some(NameRequired) else None
    case BusinessName => if Blank(d.businessName) then Some(BusinessNameRequired) else None
    case Email =>
      if Blank(d.email) then Some(EmailRequired)
      else if !EmailPattern.IsValidEmail(d.email) then Some(EmailInvalid)
      else None
    case Phone => None
    case ProductType => if d.productType == "" then Some(ProductTypeRequired) else None
    case Quantity => if d.quantity == "" then Some(QuantityRequired) else None
    case Message => if Blank(d.message) then Some(MessageRequired) else None
  }

  /** Every required field holds something the rules accept. */
  ghost predicate Complete(d: FormData) {
    && !AllSpace(d.name)
    && !AllSpace(d.businessName)
    && EmailPattern.MatchesPattern(d.email)
    && d.productType != ""
    && d.quantity != ""
    && !AllSpace(d.message)
  }

  /** A string the pattern matches is never blank. */
  lemma PatternNotBlank(s: string)
    requires EmailPattern.MatchesPattern(s)
    ensures !AllSpace(s)
  {
    var at, dot :| EmailPattern.MatchesAt(s, at, dot);
  }

  /** `validateForm` returns true, its map being empty, exactly when the form is complete. */
  lemma ValidIffComplete(d: FormData)
    ensures Validate(d) == map[] <==> Complete(d)
  {
    if Complete(d) {
      CompleteIsValid(d);
    } else {
      IncompleteIsInvalid(d);
    }
  }

  lemma CompleteIsValid(d: FormData)
    requires Complete(d)
    ensures Validate(d) == map[]
  {
    PatternNotBlank(d.email);
    var errs := Validate(d);
    assert Name !in errs && BusinessName !in errs && Email !in errs;
    assert ProductType !in errs && Quantity !in errs && Message !in errs;
    NoErrors(errs);
  }

  /** An error map over the declared keys that has none of them is empty. */
  lemma NoErrors(m: Errors)
    requires m.Keys <= ErrorFields
    requires Name !in m && BusinessName !in m && Email !in m
    requires ProductType !in m && Quantity !in m && Message !in m
    ensures m == map[]
  {
    assert forall f :: f !in m;
  }

  lemma IncompleteIsInvalid(d: FormData)
    requires !Complete(d)
    ensures Validate(d) != map[]
  {
    var errs := Validate(d);
    assert Name in errs || BusinessName in errs || Email in errs
      || ProductType in errs || Quantity in errs || Message in errs;
  }

  /**
   * The pattern is tested on the untrimmed value: an e-mail with any
   * whitespace in it, a leading or trailing space included, that is not all
   * whitespace gets the invalid-address error.
   */
  lemma SpacedEmailInvalid(d: FormData, i: int)
    requires 0 <= i < |d.email| && IsSpace(d.email[i])
    requires !AllSpace(d.email)
    ensures Email in Validate(d) && Validate(d)[Email] == EmailInvalid
  {
    EmailPattern.PatternRejectsSpace(d.email, i);
  }

  /** Changing one field leaves every other field's verdict and message as it was. */
  lemma RulesIndependent(d: FormData, f: Field, v: string, g: Field)
    requires g != f
    ensures g in Validate(d.With(f, v)) <==> g in Validate(d)
    ensures g in Validate(d) ==> Validate(d.With(f, v))[g] == Validate(d)[g]
  {
    assert d.With(f, v).Get(g) == d.Get(g);
  }

  /**
   * `opts.find(opt => opt.value === value)?.label || value`: the label of the
   * first option with that value, or the value itself when there is none
   * or the label is empty.
   */
  function LabelFor(opts: seq<FormField.SelectOption>, value: string): (r: string)
    ensures (forall i :: 0 <= i < |opts| ==> opts[i].value != value) ==> r == value
    ensures forall i ::
      (0 <= i < |opts| && opts[i].value == value && forall j :: 0 <= j < i ==> opts[j].value != value)
      ==> r == (if opts[i].labelText != "" then opts[i].labelText else value)
  {
    if opts == [] then value
    else if opts[0].value == value then
      (if opts[0].labelText != "" then opts[0].labelText else value)
    else
      var r := LabelFor(opts[1..], value);
      assert forall i :: 1 <= i < |opts| ==> opts[i] == opts[1..][i - 1];
      r
  }

  function ProductLabel(value: string): string {
    LabelFor(ProductOptions, value)
  }

  function QuantityLabel(value: string): string {
    LabelFor(QuantityOptions, value)
  }

  /** Option values are distinct and non-empty, and labels are non-empty. */
  ghost predicate WellFormedOptions(opts: seq<FormField.SelectOption>) {
    && (forall i, j :: 0 <= i < j < |opts| ==> opts[i].value != opts[j].value)
    && (forall i :: 0 <= i < |opts| ==> opts[i].value != "" && opts[i].labelText != "")
  }

  /**
   * Both option tables are well formed, so each listed value maps to its own
   * label, and any other value, the empty one included, is shown as itself.
   */
  lemma OptionLabels(value: string)
    ensures WellFormedOptions(ProductOptions) && WellFormedOptions(QuantityOptions)
    ensures forall i :: 0 <= i < |ProductOptions| ==>
      ProductLabel(ProductOptions[i].value) == ProductOptions[i].labelText
    ensures forall i :: 0 <= i < |QuantityOptions| ==>
      QuantityLabel(QuantityOptions[i].value) == QuantityOptions[i].labelText
    ensures (forall i :: 0 <= i < |ProductOptions| ==> ProductOptions[i].value != value) ==>
      ProductLabel(value) == value
    ensures (forall i :: 0 <= i < |QuantityOptions| ==> QuantityOptions[i].value != value) ==>
      QuantityLabel(value) == value
  {
    ProductOptionsWellFormed();
    QuantityOptionsWellFormed();
    OwnLabels(ProductOptions);
    OwnLabels(QuantityOptions);
  }

  /** In a well-formed table every value is shown with its own label. */
  lemma OwnLabels(opts: seq<FormField.SelectOption>)
    requires WellFormedOptions(opts)
    ensures forall i :: 0 <= i < |opts| ==> LabelFor(opts, opts[i].value) == opts[i].labelText
  {
  }

  /** The product values all differ in length. */
  lemma ProductOptionsWellFormed()
    ensures WellFormedOptions(ProductOptions)
  {
    var o := ProductOptions;
    assert |o[0].value| == 11 && |o[1].value| == 10 && |o[2].value| == 12;
    assert |o[3].value| == 8 && |o[4].value| == 6 && |o[5].value| == 5;
  }

  /** The quantity values all differ in length or in their first digit. */
  lemma QuantityOptionsWellFormed()
    ensures WellFormedOptions(QuantityOptions)
  {
    var o := QuantityOptions;
    assert |o[0].value| == 5 && o[0].value[0] == '1' && |o[1].value| == 5 && o[1].value[0] == '2';
    assert |o[2].value| == 6 && o[2].value[0] == '5' && |o[3].value| == 7 && o[3].value[0] == '1';
    assert |o[4].value| == 7 && o[4].value[0] == '2' && |o[5].value| == 4 && o[5].value[0] == '5';
  }

  /** The component's state: the form data and the error map. */
  datatype Page = Page(data: FormData, errors: Errors)

  const InitialPage := Page(EmptyForm, map[])

  /** The `error` prop each field is rendered with; the phone input gets none. */
  function ErrorProp(errors: Errors, f: Field): Option<string> {
    if f != Phone && f in errors then Some(errors[f]) else None
  }

  /**
   * `handleChange`: the changed field takes the new value and every other
   * field keeps its own. A truthy error on that field is dropped, so none is
   * shown for it any more; every other field's error stays as it was.
   */
  function HandleChange(p: Page, f: Field, v: string): (r: Page)
    ensures r.data.Get(f) == v
    ensures forall g :: g != f ==> r.data.Get(g) == p.data.Get(g)
    ensures !FormField.Truthy(ErrorProp(r.errors, f))
    ensures r.errors.Keys <= p.errors.Keys
    ensures forall g :: g != f ==> (g in r.errors <==> g in p.errors)
    ensures forall g :: g != f && g in r.errors ==> r.errors[g] == p.errors[g]
  {
    Page(p.data.With(f, v), ClearError(p.errors, f))
  }

  /** `errors[f]` set to `undefined` when it is truthy. */
  function ClearError(errors: Errors, f: Field): Errors {
    if f in errors && errors[f] != "" then errors - {f} else errors
  }

  /** Edits to two different fields can be made in either order. */
  lemma ChangesCommute(p: Page, f: Field, v: string, g: Field, w: string)
    requires f != g
    ensures HandleChange(HandleChange(p, f, v), g, w) == HandleChange(HandleChange(p, g, w), f, v)
  {
    WithCommutes(p.data, f, v, g, w);
    ClearCommutes(p.errors, f, g);
  }

  lemma WithCommutes(d: FormData, f: Field, v: string, g: Field, w: string)
    requires f != g
    ensures d.With(f, v).With(g, w) == d.With(g, w).With(f, v)
  {
    SameFields(d.With(f, v).With(g, w), d.With(g, w).With(f, v));
  }

  lemma ClearCommutes(e: Errors, f: Field, g: Field)
    ensures ClearError(ClearError(e, f), g) == ClearError(ClearError(e, g), f)
  {
    var a, b := ClearError(ClearError(e, f), g), ClearError(ClearError(e, g), f);
    assert a.Keys == b.Keys;
  }

  /** Two forms with the same value in every field are the same form. */
  lemma SameFields(a: FormData, b: FormData)
    requires forall g :: a.Get(g) == b.Get(g)
    ensures a == b
  {
    assert a.Get(Name) == b.Get(Name) && a.Get(BusinessName) == b.Get(BusinessName);
    assert a.Get(Email) == b.Get(Email) && a.Get(Phone) == b.Get(Phone);
    assert a.Get(ProductType) == b.Get(ProductType) && a.Get(Quantity) == b.Get(Quantity);
    assert a.Get(Message) == b.Get(Message);
  }

  /** The e-mail subject: `Quote Request: <product label> - <business name>`. */
  function Subject(d: FormData): string {
    "Quote Request: " + ProductLabel(d.productType) + " - " + d.businessName
  }

  /** `formData.phone || 'Not provided'`. */
  function PhoneText(phone: string): string {
    if phone == "" then "Not provided" else phone
  }

  const Greeting := "Hello ArkForge,"
  // Written in two pieces: the solver checks that a character is absent
  // from a literal piece by piece, and this one is too long to take whole.
  const Request := "I would like to request " + "a quote for your products."
  const ContactHeader := "--- CONTACT INFORMATION ---"
  const ProjectHeader := "--- PROJECT DETAILS ---"
  const MessageHeader := "--- MESSAGE ---"
  const Signature := "Sent from ArkForge website contact form"

  /**
   * The lines of the body template before the message, given the labels
   * shown for the product type and the quantity.
   */
  function BodyHead(d: FormData, productLabel: string, quantityLabel: string): seq<string> {
    [ Greeting,
      "",
      Request,
      "",
      ContactHeader,
      "Name: " + d.name,
      "Business: " + d.businessName,
      "Email: " + d.email,
      "Phone: " + PhoneText(d.phone),
      "",
      ProjectHeader,
      "Product Type: " + productLabel,
      "Quantity: " + quantityLabel,
      "",
      MessageHeader ]
  }

  const BodyTail: seq<string> := ["", "---", Signature]

  /** The body template filled in: its lines joined by line feeds, the message verbatim. */
  function BodyText(d: FormData, productLabel: string, quantityLabel: string): string {
    Join(BodyHead(d, productLabel, quantityLabel) + [d.message] + BodyTail, '\n')
  }

  /** The e-mail body, with the product type and quantity shown by their labels. */
  function Body(d: FormData): string {
    BodyText(d, ProductLabel(d.productType), QuantityLabel(d.quantity))
  }

  /** `mailto:` address `?subject=` encoded subject `&body=` encoded body. */
  function Href(subject: string, body: string): string {
    "mailto:" + ContactEmail
      + "?subject=" + UriComponent.Encode(subject)
      + "&body=" + UriComponent.Encode(body)
  }

  /** The navigation target of a valid submission. */
  function MailtoHref(d: FormData): string {
    Href(Subject(d), Body(d))
  }

  /** The state `validateForm` leaves behind and the verdict it returns. */
  datatype Validated = Validated(page: Page, ok: bool)

  /**
   * `validateForm`: the error map is replaced by a freshly built one, the
   * previous errors playing no part, and the verdict is true exactly when
   * that map is empty, which is exactly when the form is complete.
   */
  function ValidateForm(p: Page): (r: Validated)
    ensures r.page.data == p.data
    ensures r.page.errors == Validate(p.data)
    ensures r.ok <==> r.page.errors == map[]
    ensures r.ok <==> Complete(p.data)
  {
    ValidIffComplete(p.data);
    var errors := Validate(p.data);
    Validated(Page(p.data, errors), |errors| == 0)
  }

  /** The result of a submit event: the new state and where the browser goes, if anywhere. */
  datatype Submission = Submission(page: Page, navigateTo: Option<string>)

  /**
   * `handleSubmit`: validation runs first; an incomplete form stays put with
   * its new errors, and a complete one navigates to its `mailto:` URI. The
   * form data is left as it is either way.
   */
  function HandleSubmit(p: Page): (r: Submission)
    ensures r.page.data == p.data
    ensures r.page.errors == Validate(p.data)
    ensures r.navigateTo.Some? <==> Complete(p.data)
    ensures r.navigateTo.Some? ==> r.navigateTo.value == Href(Subject(p.data), Body(p.data))
  {
    var v := ValidateForm(p);
    if !v.ok then Submission(v.page, None)
    else Submission(v.page, Some(MailtoHref(p.data)))
  }

  /**
   * The href is a `mailto:` URI with a `subject` and a `body` header, and a
   * mail client reading it gets back the contact address, the subject and
   * the body exactly.
   */
  lemma MailtoRoundTrip(subject: string, body: string)
    ensures Href(subject, body) == Mailto.Compose(ContactEmail,
      [Mailto.Header("subject", subject), Mailto.Header("body", body)])
    ensures Mailto.Parse(Href(subject, body)) == Some(Mailto.Link(ContactEmail,
      [Mailto.Header("subject", subject), Mailto.Header("body", body)]))
  {
    var hs := [Mailto.Header("subject", subject), Mailto.Header("body", body)];
    HrefIsComposed(ContactEmail, subject, body);
    AddressHasNoQuery();
    assert forall i :: 0 <= i < |hs| ==> Mailto.PlainName(hs[i].name) by {
      HeaderNamesPlain();
    }
    Mailto.ParseCompose(ContactEmail, hs);
  }

  // The facts about literals below are kept in small separate lemmas: each
  // is decided by the solver unaided, but only when few literals share one
  // proof obligation.

  lemma AddressHasNoQuery()
    ensures '?' !in ContactEmail
  {
  }

  lemma HeaderNamesPlain()
    ensures Mailto.PlainName("subject") && Mailto.PlainName("body")
  {
  }

  lemma HrefIsComposed(to: string, subject: string, body: string)
    ensures "mailto:" + to + "?subject=" + UriComponent.Encode(subject) + "&body=" + UriComponent.Encode(body)
      == Mailto.Compose(to, [Mailto.Header("subject", subject), Mailto.Header("body", body)])
  {
    Mailto.ComposeTwo(to, Mailto.Header("subject", subject), Mailto.Header("body", body));
    Regroup(to, UriComponent.Encode(subject), UriComponent.Encode(body));
  }

  lemma Regroup(to: string, e1: string, e2: string)
    ensures "mailto:" + to + "?subject=" + e1 + "&body=" + e2
      == Mailto.Scheme + to + "?" + ("subject" + "=" + e1) + "&" + ("body" + "=" + e2)
  {
  }

  /**
   * Reading the body line by line: when the one-line values hold no line
   * feed, the contact and project lines carry the values entered (an empty
   * phone number shows as `Not provided`), and the message's own lines sit
   * between the `--- MESSAGE ---` header and the closing lines.
   */
  lemma BodyReadBack(d: FormData, productLabel: string, quantityLabel: string)
    requires '\n' !in d.name && '\n' !in d.businessName && '\n' !in d.email && '\n' !in d.phone
    requires '\n' !in productLabel && '\n' !in quantityLabel
    ensures var lines := Split(BodyText(d, productLabel, quantityLabel), '\n');
      && |lines| == 18 + |Split(d.message, '\n')|
      && lines[5] == "Name: " + d.name
      && lines[6] == "Business: " + d.businessName
      && lines[7] == "Email: " + d.email
      && lines[8] == "Phone: " + (if d.phone == "" then "Not provided" else d.phone)
      && lines[11] == "Product Type: " + productLabel
      && lines[12] == "Quantity: " + quantityLabel
      && lines[15..|lines| - 3] == Split(d.message, '\n')
      && lines[|lines| - 1] == Signature
  {
    var head := BodyHead(d, productLabel, quantityLabel);
    var lines := head + Split(d.message, '\n') + BodyTail;
    assert Split(BodyText(d, productLabel, quantityLabel), '\n') == lines by {
      HeadHasNoLineFeed(d, productLabel, quantityLabel);
      assert forall i :: 0 <= i < |BodyTail| ==> '\n' !in BodyTail[i] by {
        TemplateLinesHaveNoLineFeed();
      }
      SplitJoinAround(head, d.message, BodyTail, '\n');
    }
    assert lines[..15] == head;
    assert lines[15..|lines| - 3] == Split(d.message, '\n');
    assert lines[|lines| - 1] == BodyTail[2];
  }

  lemma HeadHasNoLineFeed(d: FormData, productLabel: string, quantityLabel: string)
    requires '\n' !in d.name && '\n' !in d.businessName && '\n' !in d.email && '\n' !in d.phone
    requires '\n' !in productLabel && '\n' !in quantityLabel
    ensures var head := BodyHead(d, productLabel, quantityLabel);
      forall i :: 0 <= i < |head| ==> '\n' !in head[i]
  {
    var head := BodyHead(d, productLabel, quantityLabel);
    TemplateLinesHaveNoLineFeed();
    NoLineFeed("Name: ", d.name);
    NoLineFeed("Business: ", d.businessName);
    NoLineFeed("Email: ", d.email);
    NoLineFeed("Phone: ", PhoneText(d.phone));
    NoLineFeed("Product Type: ", productLabel);
    NoLineFeed("Quantity: ", quantityLabel);
  }

  /** No line of the template holds a line feed. */
  lemma TemplateLinesHaveNoLineFeed()
    ensures '\n' !in Greeting && '\n' !in Request && '\n' !in ContactHeader
    ensures '\n' !in ProjectHeader && '\n' !in MessageHeader && '\n' !in Signature
  {
    OpeningLinesHaveNoLineFeed();
    HeadersHaveNoLineFeed();
    SignatureHasNoLineFeed();
  }

  lemma OpeningLinesHaveNoLineFeed()
    ensures '\n' !in Greeting && '\n' !in Request
  {
    RequestHasNoLineFeed();
  }

  lemma RequestHasNoLineFeed()
    ensures '\n' !in Request
  {
  }

  lemma HeadersHaveNoLineFeed()
    ensures '\n' !in ContactHeader && '\n' !in ProjectHeader && '\n' !in MessageHeader
  {
  }

  lemma SignatureHasNoLineFeed()
    ensures '\n' !in Signature
  {
  }

  lemma NoLineFeed(a: string, b: string)
    requires '\n' !in a && '\n' !in b
    ensures '\n' !in a + b
  {
  }

  /** The label each field is rendered with. */
  function FieldLabel(f: Field): string {
    match f
    case Name => "Name *"
    case BusinessName => "Business Name *"
    case Email => "Email *"
    case Phone => "Phone (Optional)"
    case ProductType => "Product Type *"
    case Quantity => "Quantity Range *"
    case Message => "Tell Us About Your Project *"
  }

  /** A field as the page renders it: no `id` prop, its label, and its error. */
  function RenderField(p: Page, f: Field): FormField.Control {
    FormField.RenderControl(FormField.Props(FieldLabel(f), None, ErrorProp(p.errors, f)))
  }

  /**
   * After a submit, a field is marked `aria-invalid` and shows an alert
   * exactly when its rule failed, and the alert reads that rule's message.
   */
  lemma SubmitMarksFailedFields(p: Page, f: Field)
    ensures var c := RenderField(HandleSubmit(p).page, f);
      && (c.ariaInvalid == "true" <==> f in Validate(p.data))
      && (c.alert.Some? <==> f in Validate(p.data))
      && (c.alert.Some? ==> c.alert.value.text == Validate(p.data)[f])
  {
  }

  /** Typing into a field takes its error mark and alert away at once. */
  lemma ChangeUnmarksField(p: Page, f: Field, v: string)
    ensures var c := RenderField(HandleChange(p, f, v), f);
      c.ariaInvalid == "false" && c.ariaDescribedBy.None? && c.alert.None?
  {
  }

  /**
   * With a well-formed option table, picking entry `i` of a `Select`'s
   * option list fails the product-type or quantity rule exactly when it is
   * the placeholder in front.
   */
  lemma PlaceholderFailsRule(d: FormData, f: Field, props: FormField.Props,
                             opts: seq<FormField.SelectOption>, i: int)
    requires f == ProductType || f == Quantity
    requires WellFormedOptions(opts)
    requires 0 <= i < |opts| + 1
    ensures f in Validate(d.With(f, FormField.Select(props, opts).options[i].value)) <==> i == 0
  {
    var v := FormField.Select(props, opts).options[i];
    if i > 0 {
      assert v == opts[i - 1];
    }
  }

  /** The quote request for Acme's fidget toys carries the subject the page promises. */
  lemma SubjectExample()
    ensures Subject(EmptyForm.(businessName := "Acme", productType := "fidget-toys"))
      == "Quote Request: " + "Custom Fidget Toys" + " - " + "Acme"
  {
  }

  /** Submitting the untouched form flags every required field and goes nowhere. */
  lemma EmptyFormScenario()
    ensures Validate(EmptyForm) == map[
      Name := NameRequired, BusinessName := BusinessNameRequired, Email := EmailRequired,
      ProductType := ProductTypeRequired, Quantity := QuantityRequired, Message := MessageRequired]
    ensures HandleSubmit(InitialPage).navigateTo == None
  {
    assert AllSpace("");
  }

  /** `not-an-email` has no `@`, so the pattern rejects it. */
  lemma NotAnEmail()
    ensures !EmailPattern.MatchesPattern("not-an-email")
  {
    EmailPattern.NoAtNoMatch("not-an-email");
  }

  /**
   * A form whose other fields are all filled in but whose e-mail is
   * `not-an-email` gets exactly one error, the invalid-address one, and the
   * submit goes nowhere.
   */
  lemma NotAnEmailScenario(d: FormData)
    requires d.email == "not-an-email"
    requires !AllSpace(d.name) && !AllSpace(d.businessName) && !AllSpace(d.message)
    requires d.productType != "" && d.quantity != ""
    ensures Validate(d) == map[Email := EmailInvalid]
    ensures HandleSubmit(Page(d, map[])).navigateTo == None
  {
    assert !IsSpace(d.email[0]);
    NotAnEmail();
    InvalidEmailOnly(d);
  }

  /**
   * A form that is complete except for an e-mail the pattern rejects, and
   * that is not blank, gets the invalid-address error alone.
   */
  lemma InvalidEmailOnly(d: FormData)
    requires !AllSpace(d.email) && !EmailPattern.MatchesPattern(d.email)
    requires !AllSpace(d.name) && !AllSpace(d.businessName) && !AllSpace(d.message)
    requires d.productType != "" && d.quantity != ""
    ensures Validate(d) == map[Email := EmailInvalid]
    ensures HandleSubmit(Page(d, map[])).navigateTo == None
  {
    OnlyFailure(d, Email);
  }

  /** When one field fails and every other passes, the error map holds that field alone. */
  lemma OnlyFailure(d: FormData, f: Field)
    requires f in Validate(d)
    requires forall g :: g != f ==> g !in Validate(d)
    ensures Validate(d) == map[f := Validate(d)[f]]
  {
    SingleError(Validate(d), f);
  }

  lemma SingleError(m: Errors, f: Field)
    requires f in m && forall g :: g != f ==> g !in m
    ensures m == map[f := m[f]]
  {
    assert m.Keys == {f};
  }
}
