/**
 * The two pieces of logic in the web front end: turning the comma-separated
 * symptom field into the payload of a recommendation request, and keeping
 * the chat transcript, which grows by one user turn and one assistant turn
 * per question.
 */
module Frontend {
  import opened Wrappers
  import opened Text

  /** Symptoms are separated by commas. */
  const SymptomSeparator: string := ","

  /** Shown instead of sending a request when no symptom was entered. */
  const NoSymptomMessage: string := "Please enter at least one symptom."

  /** The choices of the gender select box. */
  const GenderOptions: seq<string> := ["Male", "Female", "Other"]

  /** The symptom list: the comma-separated pieces, stripped, with the empty
      ones dropped, in the order typed. No symptom is empty or has
      whitespace at either end, and the list is empty exactly when the field
      holds only whitespace and commas. */
  function ParseSymptoms(input: string): (symptoms: seq<string>)
    ensures |symptoms| <= Count(input, SymptomSeparator) + 1
    ensures forall k :: 0 <= k < |symptoms| ==> IsItem(symptoms[k])
    ensures symptoms == [] <==> Blank(input, SymptomSeparator)
  {
    ItemsEmpty(input, SymptomSeparator);
    Items(input, SymptomSeparator)
  }

  /** Symptoms typed separated by commas are read back as typed, in order,
      as long as none holds a comma or has whitespace at either end. */
  lemma SymptomsRoundTrip(symptoms: seq<string>)
    requires forall k :: 0 <= k < |symptoms| ==> IsItem(symptoms[k]) && !Occurs(symptoms[k], SymptomSeparator)
    ensures ParseSymptoms(Join(symptoms, SymptomSeparator)) == symptoms
  {
    ItemsJoin(symptoms, SymptomSeparator);
  }

  /** The body of a recommendation request. */
  datatype Payload = Payload(patientId: string, age: int, gender: string, symptoms: seq<string>)

  /** What submitting the form leads to: an error shown, or a request sent. */
  datatype Submission = ShowError(message: string) | Send(payload: Payload)

  /** Submitting the patient form. The age and gender widgets only offer
      ages 0 to 120 and the three gender choices. Without a symptom the form
      shows an error and sends nothing; otherwise the request carries the
      form's values unchanged and a non-empty symptom list. */
  function Submit(patientId: string, age: int, gender: string, symptomsInput: string): (r: Submission)
    requires 0 <= age <= 120 && gender in GenderOptions
    ensures r.ShowError? <==> Blank(symptomsInput, SymptomSeparator)
    ensures r.ShowError? ==> r.message == NoSymptomMessage
    ensures r.Send? ==> r.payload.patientId == patientId && r.payload.gender == gender
    ensures r.Send? ==> r.payload.age == age && 0 <= r.payload.age <= 120
    ensures r.Send? ==> r.payload.symptoms == ParseSymptoms(symptomsInput) && r.payload.symptoms != []
  {
    var symptoms := ParseSymptoms(symptomsInput);
    if symptoms == [] then ShowError(NoSymptomMessage)
    else Send(Payload(patientId, age, gender, symptoms))
  }

  /** `data.get("answer", "")` on the chat endpoint's JSON reply: the answer
      when the reply has one, and the empty string when it has none. */
  function AnswerOf(data: map<string, string>): (answer: string)
    ensures "answer" in data ==> answer == data["answer"]
    ensures "answer" !in data ==> answer == ""
  {
    if "answer" in data then data["answer"] else ""
  }

  datatype Role = User | Assistant

  datatype Message = Message(role: Role, content: string)

  /** The text of the assistant's turn for one chat call, which either
      returned a JSON object or raised with an error text: the reply's
      answer, the empty string when the reply has none, or the error text
      after "Error: ". */
  function ReplyText(call: Result<map<string, string>, string>): (text: string)
    ensures call.Ok? && "answer" in call.value ==> text == call.value["answer"]
    ensures call.Ok? && "answer" !in call.value ==> text == ""
    ensures call.Err? ==> |text| == 7 + |call.error| && text[..7] == "Error: " && text[7..] == call.error
  {
    match call
    case Ok(data) => AnswerOf(data)
    case Err(error) => "Error: " + error
  }

  /** A transcript as the chat view builds it: turns come in pairs, a user
      turn holding a non-empty prompt and then an assistant turn. */
  ghost predicate Alternates(h: seq<Message>) {
    |h| % 2 == 0 &&
    forall i :: 0 <= i < |h| ==>
      (h[i].role == User <==> i % 2 == 0) && (h[i].role == User ==> h[i].content != "")
  }

  /** The prompts of a transcript, in the order asked. */
  function Prompts(h: seq<Message>): seq<string> {
    if h == [] then []
    else (if h[0].role == User then [h[0].content] else []) + Prompts(h[1..])
  }

  /** The prompts of a joined transcript are those of its parts. */
  lemma {:induction false} PromptsAppend(a: seq<Message>, b: seq<Message>)
    ensures Prompts(a + b) == Prompts(a) + Prompts(b)
  {
    if a == [] {
      assert a + b == b;
    } else {
      var asked := if a[0].role == User then [a[0].content] else [];
      assert (a + b)[0] == a[0];
      assert (a + b)[1..] == a[1..] + b;
      calc {
        Prompts(a + b);
        asked + Prompts(a[1..] + b);
        { PromptsAppend(a[1..], b); }
        asked + (Prompts(a[1..]) + Prompts(b));
        (asked + Prompts(a[1..])) + Prompts(b);
        Prompts(a) + Prompts(b);
      }
    }
  }

  /** One exchange adds exactly its prompt to the prompts asked so far. */
  lemma ExchangeAddsPrompt(h: seq<Message>, prompt: string, answer: string)
    ensures Prompts(h + [Message(User, prompt), Message(Assistant, answer)]) == Prompts(h) + [prompt]
  {
    var pair := [Message(User, prompt), Message(Assistant, answer)];
    PromptsAppend(h, pair);
    assert pair[1..] == [Message(Assistant, answer)];
    assert pair[1..][1..] == [];
    assert Prompts(pair[1..]) == [] + Prompts([]);
    assert Prompts(pair) == [prompt] + Prompts(pair[1..]);
  }

  /** One exchange on a non-empty prompt keeps the transcript in pairs. */
  lemma ExchangeAlternates(h: seq<Message>, prompt: string, answer: string)
    requires Alternates(h) && prompt != ""
    ensures Alternates(h + [Message(User, prompt), Message(Assistant, answer)])
  {
    var h' := h + [Message(User, prompt), Message(Assistant, answer)];
    forall i | 0 <= i < |h'|
      ensures (h'[i].role == User <==> i % 2 == 0) && (h'[i].role == User ==> h'[i].content != "")
    {
      if i < |h| {
        assert h'[i] == h[i];
      }
    }
  }

  /** A transcript in pairs holds one prompt per pair. */
  lemma {:induction false} PromptsCount(h: seq<Message>)
    requires Alternates(h)
    ensures |Prompts(h)| == |h| / 2
    decreases |h|
  {
    if h != [] {
      var n := |h|;
      var front := h[..n - 2];
      assert Alternates(front) by {
        forall i | 0 <= i < |front|
          ensures (front[i].role == User <==> i % 2 == 0) && (front[i].role == User ==> front[i].content != "")
        {
          assert front[i] == h[i];
        }
      }
      PromptsCount(front);
      assert h == front + [h[n - 2], h[n - 1]];
      assert h[n - 2].role == User && h[n - 1].role == Assistant;
      ExchangeAddsPrompt(front, h[n - 2].content, h[n - 1].content);
    }
  }

  /** The part of the browser session the chat view uses: the chat history,
      absent until the chat view first runs. */
  class SessionState {
    var messages: Option<seq<Message>>

    constructor ()
      ensures messages == None
    {
      messages := None;
    }

    /** The history, or the empty one when there is none yet. */
    function History(): seq<Message>
      reads this
    {
      if messages.Some? then messages.value else []
    }

    /** One run of the chat view. The history is created empty if absent and
        kept otherwise. A non-empty prompt appends the user's turn, then the
        assistant's: the call's answer, or "Error: " and the error text when
        the call raised. No prompt, or an empty one, changes nothing else. */
    method ChatView(prompt: Option<string>, call: Result<map<string, string>, string>)
      modifies this
      ensures messages.Some?
      ensures prompt.None? || prompt.value == "" ==> History() == old(History())
      ensures prompt.Some? && prompt.value != "" ==>
        History() == old(History()) + [Message(User, prompt.value), Message(Assistant, ReplyText(call))]
      ensures Alternates(old(History())) ==> Alternates(History())
    {
      if messages.None? {
        messages := Some([]);
      }
      if prompt.Some? && prompt.value != "" {
        ghost var before := messages.value;
        messages := Some(messages.value + [Message(User, prompt.value)]);
        var answer: string;
        if call.Ok? {
          answer := AnswerOf(call.value);
        } else {
          answer := "Error: " + call.error;
        }
        messages := Some(messages.value + [Message(Assistant, answer)]);
        assert messages.value == before + [Message(User, prompt.value), Message(Assistant, answer)];
        if Alternates(before) {
          ExchangeAlternates(before, prompt.value, answer);
        }
      }
    }
  }
}
