# ArkForge contact form, modelled in Dafny

This project models the quote-request contact page of the ArkForge marketing
site. It also models the labelled form controls that the page renders.

- **Page state.** The page keeps seven string fields and a map of error
  messages.
- **Submit.** On submit it validates the form. An incomplete form stays put
  with fresh error messages. A complete form sends the browser to a `mailto:`
  URI whose `subject` and `body` headers are percent-encoded.
- **Editing.** Typing into a field stores the new value and clears that
  field's error.
- **Controls.** Each control derives its element id from its label, wires
  `aria-invalid` and `aria-describedby` to its error, and shows the error in
  an alert. The select control puts a placeholder option in front of its
  options.

Modules, one per file:

| module | file | concept |
|---|---|---|
| `Wrappers` | `wrappers.dfy` | `Option` |
| `Text` | `text.dfy` | ECMAScript whitespace, `trim`, ASCII `toLowerCase`, splitting and joining lines |
| `UriComponent` | `uri_component.dfy` | `encodeURIComponent` (UTF-8, then percent-encoding) and its inverse |
| `EmailPattern` | `email_pattern.dfy` | the e-mail regular expression, as a declarative pattern and as the executable check |
| `Mailto` | `mailto.dfy` | composing and reading back `mailto:` URIs with header fields |
| `FormField` | `form_field.dfy` | `Input`/`Select`/`Textarea`: id derivation, ARIA wiring, alert, option list |
| `ContactForm` | `contact_form.dfy` | the page: option tables, validation, labels, change and submit handlers, the mail body |

## Behaviour worth knowing

- **Product type and quantity.** Each is checked only against the empty
  string. Neither is checked against its option table.
- **E-mail pattern.** The pattern `^[^\s@]+@[^\s@]+\.[^\s@]+$` accepts
  exactly one `@`.
- **E-mail whitespace.** The pattern is tested on the untrimmed value, so
  surrounding spaces make an address invalid.
- **Submit.** Submit has two outcomes: the errors are set, or the browser
  is sent to the `mailto:` URI.

Browser-side behaviour is modelled as follows:

- `String.prototype.trim` and `\s` use the ECMAScript WhiteSpace and
  LineTerminator set.
- `encodeURIComponent` keeps `A-Z a-z 0-9 - _ . ! ~ * ' ( )` and
  percent-encodes the UTF-8 bytes of everything else, with upper-case hex
  digits.

## Model

| member | source | states |
|---|---|---|
| Text.Trim | app/contact/page.tsx:65 | the trimmed value is empty exactly when every character is whitespace; a non-empty result starts and ends with non-whitespace and is no longer than the input |
| UriComponent.EncodeSafe | app/contact/page.tsx:111-132 | every character of an encoded subject or body is an unreserved character or `%`, so neither `&`, `=`, `?` nor whitespace survives into the URI |
| UriComponent.Encode | app/contact/page.tsx:111-112 | defines `encodeURIComponent`: an unreserved character stays, any other character becomes its UTF-8 bytes as `%XX` escapes with upper-case hex digits; `EncodeSafe` and `DecodeEncode` state what the result satisfies |
| UriComponent.DecodeEncode | app/contact/page.tsx:111-132 | percent-decoding and UTF-8-decoding an encoded string gives back the original string, for every string |
| EmailPattern.IsValidEmailIffPattern | app/contact/page.tsx:75 | the executable e-mail check accepts a string exactly when the pattern local `@` domain `.` tld, each part non-empty and free of whitespace and `@`, matches the whole string |
| EmailPattern.MatchesPattern | app/contact/page.tsx:75 | defines the regular expression declaratively: the whole string is local part, `@`, domain, `.`, top-level part, each non-empty and free of whitespace and `@`, for some choice of the `@` and `.` positions |
| EmailPattern.IsValidEmail | app/contact/page.tsx:75 | defines the executable test: no whitespace, exactly one `@` with a non-empty local part, and a domain with a `.` that has text on both sides; `IsValidEmailIffPattern` ties it to the pattern |
| EmailPattern.PatternRejectsSpace | app/contact/page.tsx:75 | no string with a whitespace character anywhere in it matches the e-mail pattern |
| ContactForm.Rule | app/contact/page.tsx:65-89 | defines one field's check and its message: the three trimmed text fields and the e-mail must not be blank, the e-mail must pass the pattern, product type and quantity must not be empty, and the phone has no rule |
| ContactForm.Validate | app/contact/page.tsx:62-90 | a field has an error exactly when its rule fails: name, business name and message when all whitespace; e-mail when all whitespace or not matching the pattern; product type and quantity when empty; phone never; each error holds that rule's message |
| ContactForm.ValidIffComplete | app/contact/page.tsx:62-92 | the error map is empty, so validation returns true, exactly when every required field holds an acceptable value |
| ContactForm.SpacedEmailInvalid | app/contact/page.tsx:73-77 | an e-mail that is not all whitespace but contains whitespace anywhere, leading or trailing included, gets the invalid-address message |
| ContactForm.RulesIndependent | app/contact/page.tsx:65-89 | changing one field never changes whether another field has an error nor what that error says |
| ContactForm.ValidateForm | app/contact/page.tsx:62-93 | the error state is replaced by the freshly computed map, whatever the previous errors were; the verdict is true exactly when that map is empty and exactly when the form is complete |
| ContactForm.LabelFor | app/contact/page.tsx:95-101 | the label of the first option whose value matches, falling back to the value itself when no option matches or the label is empty |
| ContactForm.OptionLabels | app/contact/page.tsx:11-28 | both option tables have distinct non-empty values and non-empty labels; each listed value is shown with its own label, and any other value is shown as itself |
| ContactForm.FormData.With | app/contact/page.tsx:142 | the spread `{ ...prev, [name]: value }`: the named field takes the new value and every other field keeps its value |
| ContactForm.ClearError | app/contact/page.tsx:144-147 | defines the error update of an edit: a field with a non-empty error loses it, and otherwise the map is left as it is |
| ContactForm.HandleChange | app/contact/page.tsx:138-148 | the edited field takes the new value and the other six keep theirs; the edited field no longer shows an error; the other fields' errors are kept as they were and no error is added |
| ContactForm.ChangesCommute | app/contact/page.tsx:138-148 | edits to two different fields give the same state in either order |
| ContactForm.ChangeUnmarksField | app/contact/page.tsx:144-147 | right after an edit the field renders with `aria-invalid="false"`, no `aria-describedby` and no alert |
| ContactForm.HandleSubmit | app/contact/page.tsx:103-136 | the form data is left alone and the errors are recomputed; the browser navigates exactly when the form is complete, and then to the `mailto:` URI built from the subject and the body |
| ContactForm.Subject | app/contact/page.tsx:111 | defines the subject text `Quote Request: <product label> - <business name>` before encoding |
| ContactForm.BodyText | app/contact/page.tsx:112-132 | defines the body template: the greeting, request, contact, project and message sections and the signature, joined with line feeds, with the two labels given as parameters |
| ContactForm.Body | app/contact/page.tsx:112-132 | the body template filled in with the labels the option tables give for the chosen product type and quantity |
| ContactForm.Href | app/contact/page.tsx:135 | defines the navigation target `mailto:<contact address>?subject=<encoded subject>&body=<encoded body>` |
| ContactForm.MailtoHref | app/contact/page.tsx:135 | the navigation target built from the form's own subject and body |
| ContactForm.MailtoRoundTrip | app/contact/page.tsx:134-135 | the href is the `mailto:` URI for the contact address with a `subject` and a `body` header, and reading it back gives the address, the subject and the body exactly |
| ContactForm.BodyReadBack | app/contact/page.tsx:112-132 | split into lines, the body has 18 lines plus the message's own lines; the name, business, e-mail, phone (`Not provided` when empty), product and quantity lines carry the values entered; the message lines sit between the message header and the closing lines; the last line is the signature |
| ContactForm.SubjectExample | app/contact/page.tsx:111 | a request for fidget toys from Acme has the subject `Quote Request: Custom Fidget Toys - Acme` |
| ContactForm.EmptyFormScenario | app/contact/page.tsx:62-108 | submitting the untouched form gives the six required-field messages and does not navigate |
| ContactForm.NotAnEmailScenario | app/contact/page.tsx:73-77 | a form that is complete except for the e-mail `not-an-email` gets exactly one error, the invalid-address one, and does not navigate |
| ContactForm.SubmitMarksFailedFields | app/contact/page.tsx:206-276 | after a submit, a field renders with `aria-invalid="true"` and an alert exactly when its rule failed, and the alert reads that rule's message |
| ContactForm.PlaceholderFailsRule | components/ui/Input.tsx:71-76 | with a well-formed option table, choosing entry `i` of a select fails the product-type or quantity rule exactly when it is the placeholder in front |
| FormField.ReplaceSpaceRuns | components/ui/Input.tsx:27 | the result of replacing whitespace runs with `-` holds no whitespace and is no longer than the input |
| FormField.ReplaceSpaceRunsIsCollapse | components/ui/Input.tsx:27 | replacing runs agrees with the character-by-character reading: a whitespace character after whitespace vanishes, any other whitespace becomes `-`, and other characters stay |
| FormField.ReplaceSpaceRunsFixpoint | components/ui/Input.tsx:27 | replacing whitespace runs leaves a string unchanged exactly when it holds no whitespace |
| FormField.DeriveId | components/ui/Input.tsx:27 | defines the derived id: the label in lower case with every whitespace run replaced by one `-` |
| FormField.DeriveIdIdempotent | components/ui/Input.tsx:27 | deriving an id from a derived id gives the same id |
| FormField.ControlId | components/ui/Input.tsx:27 | a non-empty `id` prop is used verbatim; otherwise the id is derived from the label and holds no whitespace |
| FormField.RenderControl | components/ui/Input.tsx:25-50 | the label's `for` and the control's `id` agree; `aria-invalid` is `"true"` exactly when there is a non-empty error and `"false"` otherwise; `aria-describedby` and the alert are present exactly then; the alert's id is the control's id plus `-error`, which `aria-describedby` names, and it shows the error text |
| FormField.Select | components/ui/Input.tsx:54-86 | the select is wired like any other control; its options are the placeholder (empty value, `Select an option`) followed by the given options in order |
| Mailto.ParseCompose | app/contact/page.tsx:135 | a `mailto:` URI composed from a recipient without `?` and headers with plain names reads back as that recipient and those headers, values decoded |

## Left out

- Rendering: the markup, the styling classes and the rest of the page are
  not modelled. Neither are the other pages, the layout and the footer.
- Navigation: assigning `window.location.href` is modelled as the submit
  result's `navigateTo`. What the browser or mail client then does is
  outside the model.
- Event handling: `preventDefault` and React's state batching are not
  modelled. Handlers run one after another, each seeing the state the
  previous one left.
- Stale closures: `handleChange` reads `errors` from the render's closure.
  The model reads the current state. The two agree when events are
  handled one at a time.
- Cleared errors: `handleChange` sets a cleared error to `undefined`. The
  model removes the key. Both render with no error, and `validateForm`
  never reads the old map.
- Unknown field names: the event's `name` attribute is modelled as the
  seven-valued `Field` type. A control with another name would add an
  unknown key to the form data, and the page has none.
- `{...props}` spread: the spread in the controls comes after the ARIA
  attributes and could override them. The page passes no such attributes,
  so the override is not modelled.
- Case mapping: `toLowerCase` maps ASCII letters only. Non-ASCII case
  mapping needs Unicode tables that are outside the model.
- Lone surrogates: `encodeURIComponent` throws `URIError` on a lone
  surrogate. Dafny strings cannot hold one, so that error path cannot
  arise.
- Whitespace set: the whitespace set is the one of ECMAScript 2023,
  including the Unicode space separators of Unicode 15.
- UriComponent.Decode: an inverse of `encodeURIComponent`, not a model of
  `decodeURIComponent`. It rejects some inputs that the browser function
  accepts, such as reserved characters left unencoded.
- Mailto.Parse: reads back header values only and leaves the recipient
  part as written. It stands for a mail client's reading of the URI, not
  for any code in the repository.
- ContactForm.BodyReadBack: the line-by-line reading is stated only when
  the name, business name, e-mail, phone and the two labels hold no line
  feed. A value with a line feed shifts the later lines. Single-line
  inputs cannot hold one, and the option labels have none. The round trip
  `MailtoRoundTrip` holds for every body regardless.
