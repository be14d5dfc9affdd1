/**
 * The dispatch step (`send_whatsapp_message` and `main`): one send request
 * per loaded contact whose phone is in international format, in list order,
 * with each failing send caught so that the loop goes on. The external
 * sender is an oracle that says, for the k-th send attempt of the run,
 * whether it succeeded or raised; the run is observed as its trace of
 * attempts.
 */
module Dispatch {
  import opened Optional
  import opened Selection
  import opened Contacts
  import opened Message
  import opened Trimming

  /** What the external sender is asked to do: send `message` to `phone`. */
  datatype Request = Request(phone: string, message: string)

  /** How one call of the external sender ended. */
  datatype SendResult = Sent | Raised(error: string)

  /**
   * One send attempt as the run records it; `paused` is whether the
   * five-second wait followed it.
   */
  datatype Attempt = Attempt(request: Request, result: SendResult, paused: bool)

  /**
   * send_whatsapp_message: asks the sender for exactly this request and
   * always returns normally, whether the sender succeeded or raised; the
   * pause follows only a successful send.
   */
  function SendWhatsAppMessage(phone: string, message: string, result: SendResult): (a: Attempt)
    ensures a.request == Request(phone, message) && a.result == result
    ensures a.paused <==> result == Sent
  {
    match result
    case Sent => Attempt(Request(phone, message), result, true)
    case Raised(_) => Attempt(Request(phone, message), result, false)
  }

  /** The only format check the loop makes: the contact's phone starts with '+'. */
  predicate Qualifies(contact: Contact) {
    |contact.phone| > 0 && contact.phone[0] == '+'
  }

  /**
   * The attempts of the loop over `contacts` with a usable message: a
   * qualifying contact gets the next attempt, whose outcome is the sender's
   * answer to that attempt; any other contact is skipped.
   */
  function Attempts(contacts: seq<Contact>, message: string, outcome: nat -> SendResult): seq<Attempt> {
    if contacts == [] then []
    else
      var earlier := Attempts(contacts[..|contacts| - 1], message, outcome);
      var contact := contacts[|contacts| - 1];
      if Qualifies(contact) then earlier + [SendWhatsAppMessage(contact.phone, message, outcome(|earlier|))]
      else earlier
  }

  /** What main does once both files are read: nothing without contacts or without a message. */
  function MainTrace(contacts: seq<Contact>, message: Option<string>, outcome: nat -> SendResult): seq<Attempt> {
    if contacts == [] || message.None? || message.value == "" then []
    else Attempts(contacts, message.value, outcome)
  }

  /**
   * main: reads both files, gives up when either yields nothing usable, and
   * otherwise walks the contacts, skipping those not in international format
   * and sending to the rest.
   */
  method Run(contactsFile: CsvFile, messageFile: TextFile, outcome: nat -> SendResult)
    returns (trace: seq<Attempt>)
    ensures trace == MainTrace(KeptContacts(RowsRead(contactsFile)), ReadMessage(messageFile), outcome)
  {
    var contacts := ReadContacts(contactsFile);
    var message := ReadMessage(messageFile);
    trace := [];
    if contacts == [] {
      return;
    }
    if message.None? || message.value == "" {
      return;
    }
    var i := 0;
    while i < |contacts|
      invariant 0 <= i <= |contacts|
      invariant trace == Attempts(contacts[..i], message.value, outcome)
    {
      var contact := contacts[i];
      AttemptsExtend(contacts, i, message.value, outcome);
      if Qualifies(contact) {
        var attempt := SendWhatsAppMessage(contact.phone, message.value, outcome(|trace|));
        trace := trace + [attempt];
      }
      i := i + 1;
    }
    assert contacts[..i] == contacts;
  }

  /** One more contact of the loop: the attempts so far, plus one when it qualifies. */
  lemma AttemptsExtend(contacts: seq<Contact>, i: nat, message: string, outcome: nat -> SendResult)
    requires i < |contacts|
    ensures var earlier := Attempts(contacts[..i], message, outcome);
            Attempts(contacts[..i + 1], message, outcome)
              == if Qualifies(contacts[i])
                 then earlier + [SendWhatsAppMessage(contacts[i].phone, message, outcome(|earlier|))]
                 else earlier
  {
    assert contacts[..i + 1][..i] == contacts[..i];
  }

  /**
   * The attempts are exactly one per qualifying contact, in list order: the
   * k-th attempt sends the message to the k-th contact whose phone starts
   * with '+', and its outcome is the sender's answer to attempt k.
   */
  lemma {:induction false} AttemptsAre(contacts: seq<Contact>, message: string, outcome: nat -> SendResult)
    ensures |Attempts(contacts, message, outcome)| == |Positions(Qualifies, contacts)|
    ensures forall k :: 0 <= k < |Positions(Qualifies, contacts)| ==>
              Attempts(contacts, message, outcome)[k]
                == SendWhatsAppMessage(contacts[Positions(Qualifies, contacts)[k]].phone, message, outcome(k))
  {
    if contacts != [] {
      var init := contacts[..|contacts| - 1];
      AttemptsAre(init, message, outcome);
      var earlier, pos := Attempts(init, message, outcome), Positions(Qualifies, init);
      forall k | 0 <= k < |pos|
        ensures Attempts(contacts, message, outcome)[k]
                  == SendWhatsAppMessage(contacts[Positions(Qualifies, contacts)[k]].phone, message, outcome(k))
      {
        assert Attempts(contacts, message, outcome)[k] == earlier[k];
        assert Positions(Qualifies, contacts)[k] == pos[k];
        assert contacts[pos[k]] == init[pos[k]];
      }
    }
  }

  /**
   * With contacts and a usable message, main sends exactly once to each
   * contact whose phone starts with '+', in list order, and to no other:
   * the k-th attempt goes to the k-th such contact (Positions lists their
   * indices increasingly), carries the message unchanged, and ends as the
   * sender's answer to attempt k.
   */
  lemma DispatchSendsToQualifying(contacts: seq<Contact>, message: Option<string>, outcome: nat -> SendResult)
    requires contacts != [] && message.Some? && message.value != ""
    ensures |MainTrace(contacts, message, outcome)| == |Positions(Qualifies, contacts)|
    ensures forall k :: 0 <= k < |Positions(Qualifies, contacts)| ==>
              var contact := contacts[Positions(Qualifies, contacts)[k]];
              Qualifies(contact) &&
              MainTrace(contacts, message, outcome)[k]
                == SendWhatsAppMessage(contact.phone, message.value, outcome(k))
    ensures forall j, k :: 0 <= j < k < |Positions(Qualifies, contacts)| ==>
              Positions(Qualifies, contacts)[j] < Positions(Qualifies, contacts)[k]
    ensures forall i :: 0 <= i < |contacts| && Qualifies(contacts[i]) ==>
              i in Positions(Qualifies, contacts)
  {
    AttemptsAre(contacts, message.value, outcome);
    PositionsExact(Qualifies, contacts);
  }

  /**
   * Failure isolation: whatever the sender answers, the run makes the same
   * requests in the same order, so a send that raises never stops a later
   * qualifying contact from being attempted.
   */
  lemma FailureIsolation(contacts: seq<Contact>, message: Option<string>, outcome1: nat -> SendResult, outcome2: nat -> SendResult)
    ensures |MainTrace(contacts, message, outcome1)| == |MainTrace(contacts, message, outcome2)|
    ensures forall k :: 0 <= k < |MainTrace(contacts, message, outcome1)| ==>
              MainTrace(contacts, message, outcome1)[k].request == MainTrace(contacts, message, outcome2)[k].request
              && MainTrace(contacts, message, outcome1)[k].result == outcome1(k)
  {
    if !(contacts == [] || message.None? || message.value == "") {
      AttemptsAre(contacts, message.value, outcome1);
      AttemptsAre(contacts, message.value, outcome2);
    }
  }

  /** No send happens when no contact has a phone starting with '+'. */
  lemma NoQualifyingContactNoSends(contacts: seq<Contact>, message: Option<string>, outcome: nat -> SendResult)
    requires forall i :: 0 <= i < |contacts| ==> !Qualifies(contacts[i])
    ensures MainTrace(contacts, message, outcome) == []
  {
    if !(contacts == [] || message.None? || message.value == "") {
      NoQualifyingContactNoAttempts(contacts, message.value, outcome);
    }
  }

  lemma {:induction false} NoQualifyingContactNoAttempts(contacts: seq<Contact>, message: string, outcome: nat -> SendResult)
    requires forall i :: 0 <= i < |contacts| ==> !Qualifies(contacts[i])
    ensures Attempts(contacts, message, outcome) == []
  {
    if contacts != [] {
      NoQualifyingContactNoAttempts(contacts[..|contacts| - 1], message, outcome);
    }
  }

  /** A missing, unreadable or all-whitespace message file means no sends. */
  lemma NoMessageNoSends(contacts: seq<Contact>, messageFile: TextFile, outcome: nat -> SendResult)
    requires messageFile.TextRead? ==> AllIn(IsSpace, messageFile.text)
    ensures MainTrace(contacts, ReadMessage(messageFile), outcome) == []
  {
  }

  /** A missing contacts file means no sends. */
  lemma NoContactsFileNoSends(messageFile: TextFile, outcome: nat -> SendResult)
    ensures MainTrace(KeptContacts(RowsRead(NoCsvFile)), ReadMessage(messageFile), outcome) == []
  {
  }

  /**
   * Contacts Alice "+10000000001", Bob "555", Carol "+10000000003" and the
   * message "Hi": exactly two sends, to Alice and then Carol; Bob is skipped.
   */
  lemma ThreeContactsExample(outcome: nat -> SendResult)
    ensures var trace := MainTrace([Contact(Some("Alice"), "+10000000001"),
                                   Contact(Some("Bob"), "555"),
                                   Contact(Some("Carol"), "+10000000003")], Some("Hi"), outcome);
            |trace| == 2
            && trace[0].request == Request("+10000000001", "Hi")
            && trace[1].request == Request("+10000000003", "Hi")
  {
    var contacts := [Contact(Some("Alice"), "+10000000001"),
                     Contact(Some("Bob"), "555"),
                     Contact(Some("Carol"), "+10000000003")];
    var o := outcome;
    assert contacts[..1][..0] == [];
    assert Attempts(contacts[..1], "Hi", o) == [SendWhatsAppMessage("+10000000001", "Hi", o(0))];
    assert contacts[..2][..1] == contacts[..1];
    assert Attempts(contacts[..2], "Hi", o) == Attempts(contacts[..1], "Hi", o);
    assert contacts[..3][..2] == contacts[..2] && contacts[..3] == contacts;
  }
}
