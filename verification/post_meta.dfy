/** The metadata dialog of the editor: a per-field validator for the
    front-matter fields, the single-field update run on every keystroke, and
    the submit gate that hands the form on only when every field passes.

    The form is a `map<string, string>`, as the JavaScript object is: it is
    seeded from whatever keys the editor extracted, so it need not hold all
    eight known fields, and it may hold others. */
module PostMeta {
  import opened Basics
  import opened Strings

  /** The known front-matter fields, in the order the editor writes them. */
  const Fields: seq<string> := ["title", "published", "description", "image", "tags", "category", "draft", "lang"]

  const TitleError := "Title must be wrapped in double quotes"
  const DateError := "Date must be in YYYY-MM-DD format"
  const DescriptionError := "Description must be wrapped in single or double quotes"
  const ImageQuoteError := "Image URL must be wrapped in double quotes"
  const ImageUrlError := "Must be a valid HTTPS URL"
  const TagsNotArrayError := "Tags must be an array"
  const TagsFormatError := "Invalid array format"
  const CategoryError := "Category must be wrapped in single or double quotes"
  const DraftError := "Draft must be true or false"
  const LangError := "Language must be 'en', 'vi', or 'jp'"

  /** What `JSON.parse` makes of the tags text: it throws, or yields a
      non-array value, or yields an array. The parser itself is a parameter. */
  datatype JsonShape = Unparseable | NotArray | JsonArray

  type Form = map<string, string>
  type Errors = map<string, string>

  /** `v` both starts and ends with the quote character `q` (one character
      suffices: the two checks may look at the same character). */
  predicate QuotedBy(v: string, q: char) {
    |v| >= 1 && v[0] == q && v[|v| - 1] == q
  }

  predicate IsDigit(c: char) {
    '0' <= c <= '9'
  }

  /** The date the pattern `^\d{4}-\d{2}-\d{2}$` accepts: four digits, a dash,
      two digits, a dash, two digits, nothing else; no range check. */
  predicate IsIsoDate(v: string) {
    && |v| == 10
    && v[4] == '-' && v[7] == '-'
    && forall k :: 0 <= k < 10 && k != 4 && k != 7 ==> IsDigit(v[k])
  }

  /** `v` matches `shape` character by character, where `#` stands for any
      ASCII digit (`\d` without the `u` flag) and every other character for itself. */
  predicate FitsShape(v: string, shape: string) {
    |v| == |shape| && forall k :: 0 <= k < |v| ==> if shape[k] == '#' then IsDigit(v[k]) else v[k] == shape[k]
  }

  /** `value.replace(/'/g, '"')`. */
  function SingleToDouble(s: string): string {
    seq(|s|, k requires 0 <= k < |s| => if s[k] == '\'' then '"' else s[k])
  }

  /** `validateField`: the error message for one field, the empty string when it passes. */
  function ValidateField(name: string, value: string, json: string -> JsonShape): (r: string)
    ensures name !in Fields ==> r == ""
    ensures name == "title" ==> (r == "" <==> QuotedBy(value, '"')) && (r != "" ==> r == TitleError)
    ensures name == "published" ==> (r == "" <==> IsIsoDate(value)) && (r != "" ==> r == DateError)
    ensures name == "description" ==>
              (r == "" <==> QuotedBy(value, '\'') || QuotedBy(value, '"')) && (r != "" ==> r == DescriptionError)
    ensures name == "image" ==> (r == "" <==> QuotedBy(value, '"') && Contains(value, "https://"))
    ensures name == "image" && !QuotedBy(value, '"') ==> r == ImageQuoteError
    ensures name == "image" && QuotedBy(value, '"') && !Contains(value, "https://") ==> r == ImageUrlError
    ensures name == "tags" ==> (r == "" <==> json(SingleToDouble(value)) == JsonArray)
    ensures name == "tags" && json(SingleToDouble(value)) == NotArray ==> r == TagsNotArrayError
    ensures name == "tags" && json(SingleToDouble(value)) == Unparseable ==> r == TagsFormatError
    ensures name == "category" ==>
              (r == "" <==> QuotedBy(value, '\'') || QuotedBy(value, '"')) && (r != "" ==> r == CategoryError)
    ensures name == "draft" ==> (r == "" <==> value == "true" || value == "false") && (r != "" ==> r == DraftError)
    ensures name == "lang" ==> (r == "" <==> value in {"en", "vi", "jp"}) && (r != "" ==> r == LangError)
  {
    var dq := StartsWith(value, "\"") && EndsWith(value, "\"");
    var sq := StartsWith(value, "'") && EndsWith(value, "'");
    if name == "title" then
      if !dq then TitleError else ""
    else if name == "published" then
      if !FitsShape(value, "####-##-##") then DateError else ""
    else if name == "description" then
      if !sq && !dq then DescriptionError else ""
    else if name == "image" then
      if !dq then ImageQuoteError
      else if !Contains(value, "https://") then ImageUrlError
      else ""
    else if name == "tags" then
      match json(SingleToDouble(value))
      case Unparseable => TagsFormatError
      case NotArray => TagsNotArrayError
      case JsonArray => ""
    else if name == "category" then
      if !sq && !dq then CategoryError else ""
    else if name == "draft" then
      if value != "true" && value != "false" then DraftError else ""
    else if name == "lang" then
      if value !in ["en", "vi", "jp"] then LangError else ""
    else ""
  }

  datatype FormState = FormState(data: Form, errors: Errors)

  /** `handleChange`: the named field takes the new value and its error entry
      the new verdict (the empty string when it passes); every other field and
      every other error entry is left as it was. */
  function HandleChange(st: FormState, name: string, value: string, json: string -> JsonShape): (r: FormState)
    ensures name in r.data && r.data[name] == value
    ensures name in r.errors && r.errors[name] == ValidateField(name, value, json)
    ensures forall k :: k != name ==> (k in r.data <==> k in st.data)
    ensures forall k :: k != name && k in st.data ==> r.data[k] == st.data[k]
    ensures forall k :: k != name ==> (k in r.errors <==> k in st.errors)
    ensures forall k :: k != name && k in st.errors ==> r.errors[k] == st.errors[k]
  {
    FormState(st.data[name := value], st.errors[name := ValidateField(name, value, json)])
  }

  /** The outcome of pressing Save: the new dialog state, and the form handed
      to `onSubmit` when that call is made. */
  datatype Submission = Submission(state: FormState, submitted: Option<Form>)

  /** `handleSubmit`: every field present in the form is validated; the error
      map is replaced by one holding exactly the failing fields with their
      messages, and `onSubmit(formData)` is called iff nothing failed. */
  function HandleSubmit(st: FormState, json: string -> JsonShape): (r: Submission)
    ensures r.state.data == st.data
    ensures forall k :: k in r.state.errors <==> k in st.data && ValidateField(k, st.data[k], json) != ""
    ensures forall k :: k in r.state.errors ==> r.state.errors[k] == ValidateField(k, st.data[k], json)
    ensures r.submitted.Some? <==> forall k :: k in st.data ==> ValidateField(k, st.data[k], json) == ""
    ensures r.submitted.Some? ==> r.submitted.value == st.data
  {
    var errors := map k | k in st.data && ValidateField(k, st.data[k], json) != "" :: ValidateField(k, st.data[k], json);
    Submission(FormState(st.data, errors), if errors == map[] then Some(st.data) else None)
  }

  /** A form that passes the gate has every known field that it holds in the
      required shape. */
  lemma AcceptedFormIsWellFormed(st: FormState, json: string -> JsonShape)
    requires HandleSubmit(st, json).submitted.Some?
    ensures "title" in st.data ==> QuotedBy(st.data["title"], '"')
    ensures "published" in st.data ==> IsIsoDate(st.data["published"])
    ensures "description" in st.data ==> QuotedBy(st.data["description"], '\'') || QuotedBy(st.data["description"], '"')
    ensures "image" in st.data ==> QuotedBy(st.data["image"], '"') && Contains(st.data["image"], "https://")
    ensures "tags" in st.data ==> json(SingleToDouble(st.data["tags"])) == JsonArray
    ensures "category" in st.data ==> QuotedBy(st.data["category"], '\'') || QuotedBy(st.data["category"], '"')
    ensures "draft" in st.data ==> st.data["draft"] in {"true", "false"}
    ensures "lang" in st.data ==> st.data["lang"] in {"en", "vi", "jp"}
  {
    var r := HandleSubmit(st, json);
    if "title" in st.data { assert ValidateField("title", st.data["title"], json) == ""; }
    if "published" in st.data { assert ValidateField("published", st.data["published"], json) == ""; }
    if "description" in st.data { assert ValidateField("description", st.data["description"], json) == ""; }
    if "image" in st.data { assert ValidateField("image", st.data["image"], json) == ""; }
    if "tags" in st.data { assert ValidateField("tags", st.data["tags"], json) == ""; }
    if "category" in st.data { assert ValidateField("category", st.data["category"], json) == ""; }
    if "draft" in st.data { assert ValidateField("draft", st.data["draft"], json) == ""; }
    if "lang" in st.data { assert ValidateField("lang", st.data["lang"], json) == ""; }
  }

  /** A title without quotes is refused with the title message, and the same
      text in double quotes is accepted. */
  lemma TitleNeedsDoubleQuotes(json: string -> JsonShape)
    ensures ValidateField("title", "hello", json) == TitleError
    ensures ValidateField("title", "\"hello\"", json) == ""
    ensures ValidateField("title", "\"", json) == ""
  {
  }

  /** The gate only looks at the keys the form holds: a form holding just a
      good title is handed on, although seven known fields are missing. */
  lemma MissingFieldsPassTheGate(json: string -> JsonShape)
    ensures HandleSubmit(FormState(map["title" := "\"x\""], map[]), json).submitted.Some?
  {
    var st := FormState(map["title" := "\"x\""], map[]);
    assert forall k :: k in st.data ==> k == "title";
    assert ValidateField("title", "\"x\"", json) == "";
  }
}
