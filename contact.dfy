/** The contact form: live e-mail marks, asynchronous submission and the status line. */
module Contact {
  import opened Wrappers
  import opened Text

  // ---------------------------------------------------------------- e-mail

  /** `\s` in a JavaScript regular expression: the WhiteSpace and LineTerminator code points. */
  predicate IsSpace(c: char) {
    c == '\t' || c == '\n' || c == '\U{B}' || c == '\U{C}' || c == '\r' || c == ' '
    || c == '\U{A0}' || c == '\U{1680}' || ('\U{2000}' <= c <= '\U{200A}')
    || c == '\U{2028}' || c == '\U{2029}' || c == '\U{202F}' || c == '\U{205F}'
    || c == '\U{3000}' || c == '\U{FEFF}'
  }

  /** The character class `[^\s@]`. */
  predicate Plain(c: char) {
    !IsSpace(c) && c != '@'
  }

  predicate AllPlain(s: string) {
    forall i :: 0 <= i < |s| ==> Plain(s[i])
  }

  /**
   * The pattern `/^[^\s@]+@[^\s@]+\.[^\s@]+$/`, read off its structure: the
   * value is three non-empty runs of `[^\s@]`, the first two joined by `@`,
   * the last two by a `.`.
   */
  ghost predicate MatchesEmailPattern(v: string)
    ensures MatchesEmailPattern(v) ==> 5 <= |v|
  {
    exists at, dot :: SplitsAt(v, at, dot)
  }

  /** `v` matches the pattern with its `@` at index `at` and the separating `.` at index `dot`. */
  ghost predicate SplitsAt(v: string, at: int, dot: int) {
    0 < at && at + 1 < dot && dot + 1 < |v| && v[at] == '@' && v[dot] == '.'
    && AllPlain(v[..at]) && AllPlain(v[at + 1..dot]) && AllPlain(v[dot + 1..])
  }

  /** A domain part: no whitespace and no `@`, with a `.` that is neither its first nor its last character. */
  predicate ValidDomain(d: string) {
    AllPlain(d) && 3 <= |d| && '.' in d[1..|d| - 1]
  }

  /** The test `emailRegex.test(value)`, computed by splitting at the first `@`; a valid address holds no whitespace. */
  predicate IsValidEmail(v: string)
    ensures IsValidEmail(v) ==> forall i :: 0 <= i < |v| ==> !IsSpace(v[i])
  {
    match IndexOf(v, '@')
    case None => false
    case Some(at) =>
      assert forall i :: 0 <= i < at ==> v[i] == v[..at][i];
      assert forall i :: at < i < |v| ==> v[i] == v[at + 1..][i - at - 1];
      0 < at && AllPlain(v[..at]) && ValidDomain(v[at + 1..])
  }

  lemma AllPlainSlice(s: string, lo: int, hi: int)
    requires AllPlain(s) && 0 <= lo <= hi <= |s|
    ensures AllPlain(s[lo..hi])
  {
  }

  lemma AllPlainConcat(a: string, b: string)
    requires AllPlain(a) && AllPlain(b)
    ensures AllPlain(a + b)
  {
  }

  /** Every value the split accepts matches the pattern. */
  lemma ValidEmailMatches(v: string)
    requires IsValidEmail(v)
    ensures MatchesEmailPattern(v)
  {
    var at := IndexOf(v, '@').value;
    assert 0 < at && v[at] == '@' && AllPlain(v[..at]);
    var d := v[at + 1..];
    assert ValidDomain(d);
    var middle := d[1..|d| - 1];
    assert '.' in middle;
    var j :| 0 <= j < |middle| && middle[j] == '.';
    var dot := at + 2 + j;
    assert v[dot] == d[j + 1] == middle[j];
    assert v[at + 1..dot] == d[..j + 1];
    assert v[dot + 1..] == d[j + 2..];
    AllPlainSlice(d, 0, j + 1);
    AllPlainSlice(d, j + 2, |d|);
    assert SplitsAt(v, at, dot);
  }

  /** Every value the pattern matches is accepted by the split, whose first `@` is the pattern's `@`. */
  lemma MatchIsValidEmail(v: string, at: int, dot: int)
    requires SplitsAt(v, at, dot)
    ensures IsValidEmail(v)
  {
    var r := IndexOf(v, '@');
    assert v[at] in v;
    assert r == Some(at);
    var d := v[at + 1..];
    assert d == v[at + 1..dot] + ['.'] + v[dot + 1..];
    assert AllPlain(['.']);
    AllPlainConcat(v[at + 1..dot], ['.']);
    AllPlainConcat(v[at + 1..dot] + ['.'], v[dot + 1..]);
    assert d[1..|d| - 1][dot - at - 2] == '.';
  }

  /** The split at the first `@` decides exactly the strings the pattern matches. */
  lemma EmailValidIffPattern(v: string)
    ensures IsValidEmail(v) <==> MatchesEmailPattern(v)
  {
    if IsValidEmail(v) {
      ValidEmailMatches(v);
    }
    if MatchesEmailPattern(v) {
      var at, dot :| SplitsAt(v, at, dot);
      MatchIsValidEmail(v, at, dot);
    }
  }

  /** The classes on the e-mail input: `input-valid` and `input-invalid`. */
  datatype Marks = Marks(valid: bool, invalid: bool)

  /** `validateEmail`: an empty value gets no mark, any other value exactly one. */
  function EmailMarks(v: string): (m: Marks)
    ensures !(m.valid && m.invalid)
    ensures v == "" ==> m == Marks(false, false)
    ensures m.valid <==> v != "" && MatchesEmailPattern(v)
    ensures m.invalid <==> v != "" && !MatchesEmailPattern(v)
  {
    EmailValidIffPattern(v);
    var isValid := IsValidEmail(v);
    Marks(isValid && v != "", !isValid && v != "")
  }

  /** A minimal address is valid, and so is one whose domain starts its middle run with a dot, which `[^\s@]` allows. */
  lemma ValidSamples()
    ensures IsValidEmail("a@b.c")
    ensures IsValidEmail("a@..c")
  {
    assert "a@b.c"[..1] == "a" && "a@b.c"[2..3] == "b" && "a@b.c"[4..] == "c";
    MatchIsValidEmail("a@b.c", 1, 3);
    assert "a@..c"[..1] == "a" && "a@..c"[2..3] == "." && "a@..c"[4..] == "c";
    MatchIsValidEmail("a@..c", 1, 3);
  }

  /** No dot after the `@`, a trailing space, a second `@` and the empty value are all rejected. */
  lemma InvalidSamples()
    ensures !IsValidEmail("a@b")
    ensures !IsValidEmail("a@b.c ")
    ensures !IsValidEmail("a@@b.c")
    ensures !IsValidEmail("")
  {
    assert IndexOf("a@b", '@') == Some(1);
    assert IndexOf("a@b.c ", '@') == Some(1);
    assert "a@b.c "[2..][3] == ' ';
    assert IndexOf("a@@b.c", '@') == Some(1);
    assert "a@@b.c"[2..][0] == '@';
  }

  /** The marks for the sample values: one valid mark, one invalid mark, none for the empty value. */
  lemma SampleMarks()
    ensures EmailMarks("a@b.c") == Marks(true, false)
    ensures EmailMarks("a@b") == Marks(false, true)
    ensures EmailMarks("") == Marks(false, false)
  {
    ValidSamples();
    InvalidSamples();
  }

  // ------------------------------------------------------------ submission

  /** One entry of a JSON `errors` array: a `message`, an object without one (or with `null`), or `null` itself. */
  datatype ErrorItem = Message(text: string) | NoMessage | NullItem

  /** The `errors` property: an array, or some other value that has no `map` method. */
  datatype ErrorsField = ErrorArray(items: seq<ErrorItem>) | NotArray

  /** The body of a failed response as `response.json()` sees it. */
  datatype Body =
    | Unparseable                          // `response.json()` rejects
    | NullJson                             // the body is `null`: `Object.hasOwn` throws
    | Parsed(errors: Option<ErrorsField>)  // any other value, with or without an own `errors`

  /** What `fetch` delivers. */
  datatype Response =
    | Ok                 // `response.ok`
    | NotOk(body: Body)  // an HTTP status outside 200-299
    | TransportFailure   // `fetch` rejects

  datatype Kind = Loading | Success | Error

  /** The class suffix of each status kind; distinct kinds get distinct suffixes. */
  function KindName(k: Kind): (r: string)
    ensures r == "loading" <==> k == Loading
    ensures r == "success" <==> k == Success
    ensures r == "error" <==> k == Error
  {
    match k
    case Loading => "loading"
    case Success => "success"
    case Error => "error"
  }

  datatype Status = Status(message: string, kind: Kind)

  const SendingText: string := "Envoi en cours..."
  const ThanksText: string := "Merci ! Ton message a bien été envoyé."
  const GenericFailureText: string := "Oups ! Il y a eu un problème lors de l'envoi."
  const NetworkFailureText: string := "Oups ! Il y a eu un problème réseau."

  /** `errors.map((err) => err.message)`: `None` when an entry is `null`, since reading its `message` throws. */
  function ErrorMessages(items: seq<ErrorItem>): (r: Option<seq<string>>)
    ensures r.None? <==> exists i :: 0 <= i < |items| && items[i].NullItem?
    ensures r.Some? ==> |r.value| == |items|
    ensures r.Some? ==> forall i :: 0 <= i < |items| ==>
      r.value[i] == (if items[i].Message? then items[i].text else "")
  {
    if |items| == 0 then Some([])
    else
      match ErrorMessages(items[..|items| - 1])
      case None => None
      case Some(init) =>
        var last := items[|items| - 1];
        if last.NullItem? then None
        else Some(init + [if last.Message? then last.text else ""])
  }

  /**
   * The status a response leads to, as the `try`/`catch` of the submit handler
   * decides it. Only an accepted request ends in success, and every outcome is
   * final, never `loading`.
   */
  function Outcome(r: Response): (o: Status)
    ensures o.kind == Success <==> r.Ok?
    ensures o.kind != Loading
    ensures r.Ok? ==> o == Status(ThanksText, Success)
    ensures r == NotOk(Parsed(None)) ==> o == Status(GenericFailureText, Error)
    ensures (r.TransportFailure? || r == NotOk(Unparseable) || r == NotOk(NullJson)
             || r == NotOk(Parsed(Some(NotArray)))) ==> o == Status(NetworkFailureText, Error)
  {
    match r
    case Ok => Status(ThanksText, Success)
    case TransportFailure => Status(NetworkFailureText, Error)
    case NotOk(body) =>
      match body
      case Unparseable => Status(NetworkFailureText, Error)
      case NullJson => Status(NetworkFailureText, Error)
      case Parsed(None) => Status(GenericFailureText, Error)
      case Parsed(Some(NotArray)) => Status(NetworkFailureText, Error)
      case Parsed(Some(ErrorArray(items))) =>
        match ErrorMessages(items)
        case None => Status(NetworkFailureText, Error)
        case Some(messages) => Status(Join(messages, ", "), Error)
  }

  /** The server's messages are shown joined by `", "`, in order; an empty `errors` array shows an empty text. */
  lemma {:induction false} ServerMessagesJoined(texts: seq<string>)
    ensures Outcome(NotOk(Parsed(Some(ErrorArray(seq(|texts|, i requires 0 <= i < |texts| => Message(texts[i]))))))) ==
      Status(Join(texts, ", "), Error)
  {
    var items := seq(|texts|, i requires 0 <= i < |texts| => Message(texts[i]));
    var ms := ErrorMessages(items);
    assert ms.Some?;
    assert ms.value == texts;
  }

  /** A single server error is shown verbatim. */
  lemma SingleErrorVerbatim(text: string)
    ensures Outcome(NotOk(Parsed(Some(ErrorArray([Message(text)]))))) == Status(text, Error)
  {
  }

  /** A failed response whose body does not parse ends like a transport failure, not with the generic text. */
  lemma UnparseableIsNetworkFailure()
    ensures Outcome(NotOk(Unparseable)) == Outcome(TransportFailure)
    ensures Outcome(NotOk(Unparseable)).message != GenericFailureText
  {
  }

  /** A `null` entry anywhere in the `errors` array makes `err.message` throw, so the network text is shown. */
  lemma NullEntryIsNetworkFailure(items: seq<ErrorItem>, i: nat)
    requires i < |items| && items[i].NullItem?
    ensures Outcome(NotOk(Parsed(Some(ErrorArray(items))))) == Status(NetworkFailureText, Error)
  {
    assert ErrorMessages(items).None?;
  }

  // ------------------------------------------------------------ the form

  class ContactForm {
    /** Both the form `my-form` and the status region `my-form-status` exist. */
    const enabled: bool
    /** The position of the `email` input among the form's fields, when that input exists. */
    const email: Option<nat>
    /** Each field's default value, which `form.reset()` restores. */
    const defaults: seq<string>
    /** Each field's current value. */
    var values: seq<string>
    /** The e-mail input's `input-valid` / `input-invalid` classes. */
    var marks: Marks
    /** The status region's `className` and `textContent`. */
    var statusClass: string
    var statusText: string

    ghost predicate Valid()
      reads this
    {
      |values| == |defaults| && (email.Some? ==> email.value < |values|)
    }

    /** Finds the form, the e-mail input and the status region; their classes and texts are those of the markup. */
    constructor (hasForm: bool, hasStatus: bool, email: Option<nat>, defaults: seq<string>, values: seq<string>,
                 marks: Marks, statusClass: string, statusText: string)
      requires |values| == |defaults| && (email.Some? ==> email.value < |values|)
      ensures Valid()
      ensures enabled == (hasForm && hasStatus) && this.email == email
      ensures this.defaults == defaults && this.values == values
      ensures this.marks == marks && this.statusClass == statusClass && this.statusText == statusText
    {
      enabled := hasForm && hasStatus;
      this.email, this.defaults, this.values := email, defaults, values;
      this.marks := marks;
      this.statusClass, this.statusText := statusClass, statusText;
    }

    /** `updateStatus`: the region's class is exactly `form-status <kind>` and its text the message. */
    method UpdateStatus(message: string, kind: Kind)
      modifies this
      ensures statusClass == "form-status " + KindName(kind) && statusText == message
      ensures values == old(values) && marks == old(marks)
    {
      statusClass := "form-status " + KindName(kind);
      statusText := message;
    }

    /** The user types into the e-mail input, leaving `v`; the `input` listener re-marks it. */
    method OnEmailInput(v: string)
      requires Valid()
      modifies this
      ensures Valid()
      ensures enabled && email.Some? ==> values == old(values)[email.value := v] && marks == EmailMarks(v)
      ensures !(enabled && email.Some?) ==> values == old(values) && marks == old(marks)
      ensures statusClass == old(statusClass) && statusText == old(statusText)
    {
      if enabled && email.Some? {
        values := values[email.value := v];
        marks := EmailMarks(values[email.value]);
      }
    }

    /** The synchronous part of `handleSubmit`, up to the `fetch`: the status shows that sending is under way. */
    method Submit()
      requires Valid()
      modifies this
      ensures Valid()
      ensures enabled ==> statusClass == "form-status loading" && statusText == SendingText
      ensures !enabled ==> statusClass == old(statusClass) && statusText == old(statusText)
      ensures values == old(values) && marks == old(marks)
    {
      if enabled {
        UpdateStatus(SendingText, Loading);
      }
    }

    /** The rest of `handleSubmit`, once `fetch` settles with `r`. */
    method Receive(r: Response)
      requires Valid()
      modifies this
      ensures Valid()
      ensures enabled ==> statusClass == "form-status " + KindName(Outcome(r).kind)
      ensures enabled ==> statusText == Outcome(r).message
      ensures enabled && r.Ok? ==> values == defaults
      ensures enabled && r.Ok? && email.Some? ==> marks == Marks(false, false)
      ensures !(enabled && r.Ok?) ==> values == old(values)
      ensures !(enabled && r.Ok? && email.Some?) ==> marks == old(marks)
      ensures !enabled ==> statusClass == old(statusClass) && statusText == old(statusText)
    {
      if enabled {
        var s := Outcome(r);
        UpdateStatus(s.message, s.kind);
        if r.Ok? {
          values := defaults;
          if email.Some? {
            marks := Marks(false, false);
          }
        }
      }
    }

    /** A whole submission, with no other submission overlapping it. */
    method HandleSubmit(r: Response)
      requires Valid()
      modifies this
      ensures Valid()
      ensures enabled ==> statusClass == "form-status " + KindName(Outcome(r).kind)
      ensures enabled ==> statusText == Outcome(r).message
      ensures enabled && r.Ok? ==> values == defaults
      ensures enabled && r.Ok? && email.Some? ==> marks == Marks(false, false)
      ensures !(enabled && r.Ok?) ==> values == old(values)
      ensures !(enabled && r.Ok? && email.Some?) ==> marks == old(marks)
      ensures !enabled ==> statusClass == old(statusClass) && statusText == old(statusText)
    {
      Submit();
      Receive(r);
    }
  }
}
