/**
 * The contact page form. Six text fields are filled in, a submission is
 * refused with an alert unless every field is non-empty, and an accepted one
 * shows a "Sending..." button for a second, then opens a WhatsApp chat with a
 * formatted message and shows a confirmation panel for three seconds before
 * the form comes back empty. Beside the form, four contact cards each react
 * to a click.
 */
module Contact {
  import opened Wrappers
  import Text

  datatype Field = FirstName | LastName | Address | CourseOption | SubjectOption | Message

  datatype FormData = FormData(
    firstName: string,
    lastName: string,
    address: string,
    courseOption: string,
    subjectOption: string,
    message: string)
  {
    /** The value the input named `f` shows. */
    function Get(f: Field): string
    {
      match f
      case FirstName => firstName
      case LastName => lastName
      case Address => address
      case CourseOption => courseOption
      case SubjectOption => subjectOption
      case Message => message
    }
  }

  const EmptyForm: FormData := FormData("", "", "", "", "", "")

  /** A change event from the input named `f`: that field takes `value`, the others keep theirs. */
  function HandleInputChange(d: FormData, f: Field, value: string): (r: FormData)
    ensures r.Get(f) == value
    ensures forall g: Field :: g != f ==> r.Get(g) == d.Get(g)
  {
    match f
    case FirstName => d.(firstName := value)
    case LastName => d.(lastName := value)
    case Address => d.(address := value)
    case CourseOption => d.(courseOption := value)
    case SubjectOption => d.(subjectOption := value)
    case Message => d.(message := value)
  }

  /** The validation rule: every field is a non-empty string. */
  predicate IsComplete(d: FormData)
  {
    d.firstName != "" && d.lastName != "" && d.address != "" &&
    d.courseOption != "" && d.subjectOption != "" && d.message != ""
  }

  lemma IsCompleteMeansEveryField(d: FormData)
    ensures IsComplete(d) <==> forall f: Field :: d.Get(f) != ""
  {
    if !IsComplete(d) {
      if d.firstName == "" { assert d.Get(FirstName) == ""; }
      else if d.lastName == "" { assert d.Get(LastName) == ""; }
      else if d.address == "" { assert d.Get(Address) == ""; }
      else if d.courseOption == "" { assert d.Get(CourseOption) == ""; }
      else if d.subjectOption == "" { assert d.Get(SubjectOption) == ""; }
      else { assert d.Get(Message) == ""; }
    }
  }

  datatype Choice = Choice(value: string, text: string)

  const CourseOptions: seq<Choice> := [
    Choice("undergraduate", "Undergraduate"),
    Choice("postgraduate", "Postgraduate")
  ]

  const SubjectOptions: seq<Choice> := [
    Choice("counseling", "Academic Counseling"),
    Choice("application", "Application Assistance"),
    Choice("visa", "Visa Processing"),
    Choice("scholarship", "Scholarship Guidance"),
    Choice("general", "General Inquiry")
  ]

  /** Position of the first option at or after `from` whose value is `v`, or -1. */
  function FindFrom(options: seq<Choice>, v: string, from: nat): (r: int)
    requires from <= |options|
    ensures r == -1 || (from <= r < |options| && options[r].value == v)
    ensures r == -1 ==> forall k :: from <= k < |options| ==> options[k].value != v
    ensures r != -1 ==> forall k :: from <= k < r ==> options[k].value != v
    decreases |options| - from
  {
    if from == |options| then -1
    else if options[from].value == v then from
    else FindFrom(options, v, from + 1)
  }

  /** `options.find(opt => opt.value === v)`. */
  function FindChoice(options: seq<Choice>, v: string): (r: Option<Choice>)
  {
    var i := FindFrom(options, v, 0);
    if i == -1 then None else Some(options[i])
  }

  /** `find(...)?.label || v`: the label of the first matching option, or the raw value when none matches or its label is empty. */
  function ChoiceText(options: seq<Choice>, v: string): (r: string)
    ensures (forall k :: 0 <= k < |options| ==> options[k].value != v) ==> r == v
    ensures forall k :: (0 <= k < |options| && options[k].value == v &&
      (forall j :: 0 <= j < k ==> options[j].value != v)) ==>
      r == (if options[k].text != "" then options[k].text else v)
  {
    var found := FindChoice(options, v);
    if found.Some? && found.value.text != "" then found.value.text else v
  }

  /** Every listed value is shown with its label in the message. */
  lemma ListedChoicesUseLabels()
    ensures forall k :: 0 <= k < |CourseOptions| ==>
      ChoiceText(CourseOptions, CourseOptions[k].value) == CourseOptions[k].text
    ensures forall k :: 0 <= k < |SubjectOptions| ==>
      ChoiceText(SubjectOptions, SubjectOptions[k].value) == SubjectOptions[k].text
  {
  }

  const Header: string := "*New Contact Form Submission*"
  const Rule: string := "---"
  const Signature: string := "Sent from Semla Educational Consultancy website"
  const Footer: string := Rule + "\n" + Signature

  /** Lines joined with newlines, as a multi-line template literal lays them out. */
  function JoinLines(lines: seq<string>): string
    decreases |lines|
  {
    if |lines| == 0 then "" else if |lines| == 1 then lines[0] else lines[0] + "\n" + JoinLines(lines[1..])
  }

  /** The template line by line: header, blank, name as "first last", address, course, subject, blank, message heading, message, blank, signature. */
  function MessageLines(d: FormData): seq<string>
  {
    [Header, "",
     NameLine(d),
     "*Address:* " + d.address,
     "*Course Interest:* " + ChoiceText(CourseOptions, d.courseOption),
     "*Subject:* " + ChoiceText(SubjectOptions, d.subjectOption),
     "",
     "*Message:*",
     d.message,
     "",
     Rule,
     Signature]
  }

  /** The name line of the template: first and last name with one space between. */
  function NameLine(d: FormData): string
  {
    "*Name:* " + d.firstName + " " + d.lastName
  }

  /**
   * The WhatsApp text for a submitted form: the header line, a blank line, the
   * sender's name, and at the end the user's own text followed by a blank line,
   * the rule and the signature.
   */
  function WhatsAppMessage(d: FormData): (m: string)
    ensures |Header| < |m| && m[..|Header| + 1] == Header + "\n"
    ensures |Header| + 2 + |NameLine(d)| < |m| &&
      m[|Header| + 1] == '\n' &&
      m[|Header| + 2..|Header| + 2 + |NameLine(d)|] == NameLine(d) &&
      m[|Header| + 2 + |NameLine(d)|] == '\n'
    ensures |d.message| + 2 + |Footer| <= |m| &&
      m[|m| - |Footer| - 2 - |d.message|..] == d.message + "\n\n" + Footer
  {
    MessageStartsWithHeader(d);
    MessageNamesSender(d);
    MessageEndsWithText(d);
    JoinLines(MessageLines(d))
  }

  lemma JoinStep(l: seq<string>, k: nat)
    requires k + 1 < |l|
    ensures JoinLines(l[k..]) == l[k] + "\n" + JoinLines(l[k + 1..])
  {
    assert l[k..][1..] == l[k + 1..];
  }

  /** Joining two non-empty runs of lines puts one newline between them. */
  lemma {:induction false} JoinAppend(a: seq<string>, b: seq<string>)
    requires 0 < |a| && 0 < |b|
    ensures JoinLines(a + b) == JoinLines(a) + "\n" + JoinLines(b)
    decreases |a|
  {
    if |a| == 1 {
      assert (a + b)[1..] == b;
    } else {
      assert (a + b)[1..] == a[1..] + b;
      JoinAppend(a[1..], b);
    }
  }

  /** The last four lines of the template: the user's text, a blank line and the signature. */
  lemma MessageTail(d: FormData)
    ensures JoinLines(MessageLines(d)[8..]) == d.message + "\n\n" + Footer
  {
    var l := MessageLines(d);
    assert l[11..] == [Signature];
    JoinStep(l, 10);
    JoinStep(l, 9);
    JoinStep(l, 8);
  }

  /** The message opens with the header line. */
  lemma MessageStartsWithHeader(d: FormData)
    ensures var m := JoinLines(MessageLines(d));
      |Header| < |m| && m[..|Header| + 1] == Header + "\n"
  {
    var l := MessageLines(d);
    JoinStep(l, 0);
    assert l[0..] == l;
  }

  /** After the header and a blank line comes the sender's name on its own line. */
  lemma MessageNamesSender(d: FormData)
    ensures var m := JoinLines(MessageLines(d));
      |Header| + 2 + |NameLine(d)| < |m| &&
      m[|Header| + 1] == '\n' &&
      m[|Header| + 2..|Header| + 2 + |NameLine(d)|] == NameLine(d) &&
      m[|Header| + 2 + |NameLine(d)|] == '\n'
  {
    ThirdLine(MessageLines(d));
  }

  /** In joined lines, the third line sits between the second and third newlines. */
  lemma ThirdLine(l: seq<string>)
    requires 3 < |l|
    ensures var m := JoinLines(l); var i := |l[0]| + |l[1]| + 2;
      i + |l[2]| < |m| && m[i - 1] == '\n' &&
      m[i..i + |l[2]|] == l[2] && m[i + |l[2]|] == '\n'
  {
    JoinStep(l, 0);
    JoinStep(l, 1);
    JoinStep(l, 2);
    assert l[0..] == l;
    ThirdOfFour(l[0], l[1], l[2], JoinLines(l[3..]));
  }

  lemma ThirdOfFour(a: string, b: string, c: string, rest: string)
    ensures var m := a + "\n" + (b + "\n" + (c + "\n" + rest)); var i := |a| + |b| + 2;
      i + |c| < |m| && m[i - 1] == '\n' && m[i..i + |c|] == c && m[i + |c|] == '\n'
  {
    var m2 := c + "\n" + rest;
    var m1 := b + "\n" + m2;
    var m := a + "\n" + m1;
    LineBreak(a, m1);
    LineBreak(b, m2);
    LineBreak(c, rest);
    var i := |a| + |b| + 2;
    assert m[|a| + 1..] == m1;
    assert m[i..] == m1[|b| + 1..] == m2;
    assert m[i..i + |c|] == m2[..|c|];
  }

  /** A line followed by a newline and the rest can be split back apart at the newline. */
  lemma LineBreak(a: string, b: string)
    ensures var m := a + "\n" + b;
      m[..|a|] == a && m[|a|] == '\n' && m[|a| + 1..] == b
  {
  }

  /** The message closes with the user's text, a blank line, the rule and the signature. */
  lemma MessageEndsWithText(d: FormData)
    ensures var m := JoinLines(MessageLines(d));
      |d.message| + 2 + |Footer| <= |m| &&
      m[|m| - |Footer| - 2 - |d.message|..] == d.message + "\n\n" + Footer
  {
    var l := MessageLines(d);
    var m := JoinLines(l);
    var tail := d.message + "\n\n" + Footer;
    assert l == l[..8] + l[8..];
    JoinAppend(l[..8], l[8..]);
    MessageTail(d);
    assert m == (JoinLines(l[..8]) + "\n") + tail;
    assert m[|m| - |tail|..] == tail;
  }

  /** The chat number; the message travels percent-encoded in the query. */
  const WhatsAppNumber: string := "9779813960567"

  /** `encodedText` is the result of `encodeURIComponent` on the message. */
  function WhatsAppUrl(encodedText: string): (u: string)
    ensures |u| == 33 + |encodedText|
    ensures u[..14] == "https://wa.me/"
    ensures u[14..27] == WhatsAppNumber
    ensures u[27..33] == "?text="
    ensures u[|u| - |encodedText|..] == encodedText
  {
    "https://wa.me/" + WhatsAppNumber + "?text=" + encodedText
  }

  /**
   * The form's state. `pending` is the timer that is running: the one-second
   * processing delay, which carries the message captured when the form was
   * submitted, or the three-second reset delay.
   */
  datatype Timer = Processing(message: string) | Reset
  datatype State = State(form: FormData, isSubmitting: bool, isSubmitted: bool, pending: Option<Timer>)

  const Initial: State := State(EmptyForm, false, false, None)

  datatype Event = Input(field: Field, value: string) | SubmitClicked | TimerFired

  /** What a step asks of the browser. */
  datatype Effect = NoEffect | AlertMissingFields | OpenChat(message: string)

  datatype Outcome = Outcome(state: State, effect: Effect)

  /**
   * One event. The inputs and the submit button exist only while the
   * confirmation panel is hidden, and the button is disabled while a
   * submission is in progress.
   */
  function Step(s: State, e: Event): (o: Outcome)
    ensures e.SubmitClicked? && !s.isSubmitting && !s.isSubmitted ==>
      (o.effect == AlertMissingFields <==> !IsComplete(s.form)) &&
      (!IsComplete(s.form) ==> o.state == s) &&
      (IsComplete(s.form) ==> o.state.isSubmitting && o.state.form == s.form)
    ensures e.SubmitClicked? && (s.isSubmitting || s.isSubmitted) ==> o == Outcome(s, NoEffect)
    ensures o.effect.OpenChat? ==> e.TimerFired? && s.pending == Some(Processing(o.effect.message))
    ensures e.Input? && !s.isSubmitted ==>
      o == Outcome(s.(form := HandleInputChange(s.form, e.field, e.value)), NoEffect)
    ensures e.Input? && s.isSubmitted ==> o == Outcome(s, NoEffect)
    ensures e.TimerFired? && s.pending == Some(Reset) ==>
      o.state.form == EmptyForm && !o.state.isSubmitted && o.state.pending.None? && o.effect == NoEffect
    ensures e.TimerFired? && s.pending.None? ==> o == Outcome(s, NoEffect)
  {
    match e
    case Input(f, v) =>
      if s.isSubmitted then Outcome(s, NoEffect)
      else Outcome(s.(form := HandleInputChange(s.form, f, v)), NoEffect)
    case SubmitClicked =>
      if s.isSubmitting || s.isSubmitted then Outcome(s, NoEffect)
      else if !IsComplete(s.form) then Outcome(s, AlertMissingFields)
      else Outcome(s.(isSubmitting := true, pending := Some(Processing(WhatsAppMessage(s.form)))), NoEffect)
    case TimerFired =>
      match s.pending
      case None => Outcome(s, NoEffect)
      case Some(Processing(m)) =>
        Outcome(s.(isSubmitting := false, isSubmitted := true, pending := Some(Reset)), OpenChat(m))
      case Some(Reset) =>
        Outcome(State(EmptyForm, s.isSubmitting, false, None), NoEffect)
  }

  /** The flags always agree with the running timer, so the two are never both set. */
  predicate Valid(s: State)
  {
    (s.isSubmitting <==> s.pending.Some? && s.pending.value.Processing?) &&
    (s.isSubmitted <==> s.pending == Some(Reset))
  }

  lemma StepValid(s: State, e: Event)
    requires Valid(s)
    ensures Valid(Step(s, e).state)
    ensures !(Step(s, e).state.isSubmitting && Step(s, e).state.isSubmitted)
  {
  }

  function Run(s: State, events: seq<Event>): State
    decreases |events|
  {
    if |events| == 0 then s else Run(Step(s, events[0]).state, events[1..])
  }

  lemma {:induction false} RunValid(s: State, events: seq<Event>)
    requires Valid(s)
    ensures Valid(Run(s, events))
    decreases |events|
  {
    if |events| > 0 {
      StepValid(s, events[0]);
      RunValid(Step(s, events[0]).state, events[1..]);
    }
  }

  /**
   * A complete submission followed by the two timers opens the chat with the
   * message of the form as it was at the click, and ends on an empty form.
   */
  lemma SubmitLifecycle(d: FormData)
    requires IsComplete(d)
    ensures var s0 := State(d, false, false, None);
      var s1 := Step(s0, SubmitClicked).state;
      var o2 := Step(s1, TimerFired);
      var o3 := Step(o2.state, TimerFired);
      s1.isSubmitting && !s1.isSubmitted &&
      o2.effect == OpenChat(WhatsAppMessage(d)) && o2.state.isSubmitted && !o2.state.isSubmitting &&
      o3.state == Initial
  {
  }

  /** Edits made during the one-second delay change the form but not the message already captured. */
  lemma EditsDuringDelayNotSent(d: FormData, f: Field, v: string)
    requires IsComplete(d)
    ensures var s1 := Step(State(d, false, false, None), SubmitClicked).state;
      var s2 := Step(s1, Input(f, v)).state;
      Step(s2, TimerFired).effect == OpenChat(WhatsAppMessage(d))
  {
  }

  /** The four contact cards. */
  datatype ContactCard = ContactCard(title: string, content: string, color: string)

  const ContactInfo: seq<ContactCard> := [
    ContactCard("Call Us", "+977 9813960567", "text-blue-600"),
    ContactCard("WhatsApp", "+977 9813960567", "text-green-600"),
    ContactCard("Email", "info@semlaconsultancy.com", "text-purple-600"),
    ContactCard("Address", "Chabahil, Kathmandu, Nepal", "text-red-600")
  ]

  /** What clicking a card does; the maps search URL is built from the percent-encoded address. */
  datatype CardAction =
    | CopyToClipboard(text: string, toast: string)
    | Navigate(href: string)
    | OpenMapsSearch(query: string)
    | NoAction

  function ClickAction(card: ContactCard): (a: CardAction)
    ensures a.CopyToClipboard? <==> card.title in {"Call Us", "WhatsApp"}
    ensures a.CopyToClipboard? ==> a.text == card.content
    ensures a.Navigate? <==> card.title == "Email"
    ensures a.Navigate? ==> a.href == "mailto:" + card.content
    ensures a.OpenMapsSearch? <==> card.title == "Address"
    ensures a.OpenMapsSearch? ==> a.query == card.content
  {
    if card.title == "Call Us" || card.title == "WhatsApp" then
      CopyToClipboard(card.content, card.title + " number copied: " + card.content)
    else if card.title == "Email" then Navigate("mailto:" + card.content)
    else if card.title == "Address" then OpenMapsSearch(card.content)
    else NoAction
  }

  /** Every card on the page does something; the two phone cards copy the same number. */
  lemma EveryCardActs()
    ensures forall k :: 0 <= k < |ContactInfo| ==> ClickAction(ContactInfo[k]) != NoAction
    ensures ClickAction(ContactInfo[0]).CopyToClipboard? && ClickAction(ContactInfo[0]).text == "+977 9813960567"
    ensures ClickAction(ContactInfo[1]).CopyToClipboard? && ClickAction(ContactInfo[1]).text == "+977 9813960567"
  {
  }

  predicate IsLowerWord(w: string)
  {
    forall k :: 0 <= k < |w| ==> 'a' <= w[k] <= 'z'
  }

  /** A text colour of the form text-⟨hue⟩-600 whose hue is a plain lower-case word. */
  predicate IsShade600(color: string)
  {
    9 <= |color| && color[..5] == "text-" && color[|color| - 4..] == "-600" &&
    IsLowerWord(color[5..|color| - 4])
  }

  /** Neither pattern occurs anywhere in the colour. */
  predicate HasNoShadePattern(color: string)
  {
    forall p: nat :: p <= |color| ==> !Text.OccursAt(color, "text-", p) && !Text.OccursAt(color, "-600", p)
  }

  /**
   * The icon tile's background class, derived from the text colour by two
   * first-occurrence replacements: a shade-600 text colour becomes the
   * shade-100 background of the same hue, and a colour with neither pattern
   * passes through untouched.
   */
  function IconBackground(color: string): (r: string)
    ensures IsShade600(color) ==> r == "bg-" + color[5..|color| - 4] + "-100"
    ensures HasNoShadePattern(color) ==> r == color
  {
    if IsShade600(color) then
      var hue := color[5..|color| - 4];
      assert color == "text-" + hue + "-600";
      IconBackgroundOfHue(color, hue);
      Text.ReplaceFirst(Text.ReplaceFirst(color, "text-", "bg-"), "-600", "-100")
    else
      IconBackgroundUnmatched(color);
      Text.ReplaceFirst(Text.ReplaceFirst(color, "text-", "bg-"), "-600", "-100")
  }

  /** Without either pattern both replaces leave the colour as it is. */
  lemma IconBackgroundUnmatched(color: string)
    ensures HasNoShadePattern(color) ==>
      Text.ReplaceFirst(Text.ReplaceFirst(color, "text-", "bg-"), "-600", "-100") == color
  {
    if HasNoShadePattern(color) {
      Text.ReplaceAbsent(color, "text-", "bg-");
      Text.ReplaceAbsent(color, "-600", "-100");
    }
  }

  /** For a shade-600 text colour with a plain hue name, the tile gets the shade-100 background of the same hue. */
  lemma IconBackgroundOfHue(color: string, hue: string)
    requires IsLowerWord(hue) && color == "text-" + hue + "-600"
    ensures Text.ReplaceFirst(Text.ReplaceFirst(color, "text-", "bg-"), "-600", "-100") == "bg-" + hue + "-100"
  {
    var rest := hue + "-600";
    assert "text-" + hue + "-600" == "text-" + rest;
    Text.ReplacePrefix("text-", rest, "bg-");
    var s := "bg-" + rest;
    var i := 3 + |hue|;
    assert s[i..i + 4] == "-600";
    forall p: nat | p < i
      ensures !Text.OccursAt(s, "-600", p)
    {
      if p == 2 {
        if |hue| > 0 { assert s[3] == hue[0]; } else { assert s[3] == '-'; }
        assert s[p..p + 4][1] == s[3];
      } else if p < 2 {
        assert s[p..p + 4][0] == s[p];
      } else {
        assert s[p] == hue[p - 3];
        assert s[p..p + 4][0] == s[p];
      }
    }
    Text.ReplaceAtFirst(s, "-600", "-100", i);
    assert s[..i] == "bg-" + hue;
    assert s[i + 4..] == [];
  }

  /** The hue named in each card's text colour. */
  const CardHues: seq<string> := ["blue", "green", "purple", "red"]

  /** Each card's tile is the shade-100 background of its text colour's hue: blue, green, purple and red. */
  lemma CardTile(k: nat)
    requires k < |ContactInfo|
    ensures IconBackground(ContactInfo[k].color) == "bg-" + CardHues[k] + "-100"
  {
    assert IsLowerWord(CardHues[k]);
    assert ContactInfo[k].color == "text-" + CardHues[k] + "-600";
    IconBackgroundOfHue(ContactInfo[k].color, CardHues[k]);
  }
}
