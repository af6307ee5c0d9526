/**
 * The send form of `app/admin/email/page.tsx`: `handleSendEmail` checks the form in
 * a fixed order, parses the comma-separated recipients, posts the request and, once
 * the reply settles, records the result and clears the form after a send that
 * reached at least one recipient.
 */
module AdminEmail {
  import opened Common
  import opened Text
  import opened Lists

  /** The three `sendType` choices, posted as `'custom'`, `'all_users'` and `'all_mentors'`. */
  datatype SendType = Custom | AllUsers | AllMentors

  /** The body posted to `/admin/email/send`. */
  datatype SendRequest = SendRequest(toEmails: seq<string>, subject: string, message: string, sendType: SendType)

  /**
   * How the `apiPost` promise settles: a reply with its counts, or a thrown error with
   * its `message` (empty when the error has none).
   */
  datatype Reply = Returned(successCount: int, failedCount: int) | Threw(message: string)

  /** What `sendResult` holds once set: the reply, or `{ error }`. */
  datatype SendResult = Delivered(successCount: int, failedCount: int) | Failed(error: string)

  /** The two `alert`s of `handleSendEmail`. */
  datatype Alert = FillSubjectAndMessage | EnterOneAddress

  /** The text each alert shows. */
  function AlertText(a: Alert): string
  {
    match a
    case FillSubjectAndMessage => "Please fill in subject and message"
    case EnterOneAddress => "Please enter at least one email address"
  }

  const SendFailed := "Failed to send emails"

  /**
   * The two early returns of `handleSendEmail`, in source order: the alert shown, or
   * `None` when the send goes ahead. A missing subject or message is reported even
   * when the recipients are blank too; the recipient check applies to custom sends
   * only and rejects an empty or all-whitespace list.
   */
  function Validate(sendType: SendType, toEmails: string, subject: string, message: string): (alert: Option<Alert>)
    ensures alert.None? <==> subject != "" && message != "" && (sendType == Custom ==> !AllWhitespace(toEmails))
    ensures subject == "" || message == "" ==> alert == Some(FillSubjectAndMessage)
    ensures subject != "" && message != "" && sendType == Custom && AllWhitespace(toEmails) ==>
      alert == Some(EnterOneAddress)
  {
    TrimEmptyIff(toEmails);
    if subject == "" || message == "" then Some(FillSubjectAndMessage)
    else if sendType == Custom && Trim(toEmails) == "" then Some(EnterOneAddress)
    else None
  }

  /** `.map(e => e.trim())`. */
  function TrimAll(parts: seq<string>): (r: seq<string>)
    ensures |r| == |parts|
  {
    Map(parts, Trim)
  }

  predicate IsNonEmpty(s: string)
  {
    s != ""
  }

  /** `.filter(e => e)`: the non-empty strings, in their order. */
  function NonEmpty(parts: seq<string>): (r: seq<string>)
    ensures |r| <= |parts|
  {
    Filter(parts, IsNonEmpty)
  }

  /** A string that a parsed address can be: non-empty, trimmed, without a comma. */
  predicate CleanAddress(a: string)
  {
    a != "" && Trimmed(a) && ',' !in a
  }

  /** Filtering out the empty strings from trimmed, comma-free strings leaves clean addresses only. */
  lemma NonEmptyIsClean(parts: seq<string>)
    requires forall i :: 0 <= i < |parts| ==> Trimmed(parts[i]) && ',' !in parts[i]
    ensures forall i :: 0 <= i < |NonEmpty(parts)| ==> CleanAddress(NonEmpty(parts)[i])
  {
    var r := NonEmpty(parts);
    FilterKeeps(parts, IsNonEmpty);
    forall i | 0 <= i < |r| ensures CleanAddress(r[i]) {
      var j :| 0 <= j < |parts| && parts[j] == r[i];
    }
  }

  /** `toEmails.split(',').map(e => e.trim()).filter(e => e)`. */
  function Recipients(toEmails: string): (r: seq<string>)
    ensures |r| <= Occurrences(toEmails, ',') + 1
  {
    NonEmpty(TrimAll(Split(toEmails, ',')))
  }

  /** The `to_emails` list posted: the parsed addresses for a custom send, empty otherwise. */
  function EmailList(sendType: SendType, toEmails: string): (r: seq<string>)
    ensures sendType != Custom ==> r == []
    ensures sendType == Custom ==> r == Recipients(toEmails)
  {
    if sendType == Custom then Recipients(toEmails) else []
  }

  /**
   * Every parsed address is non-empty, has no whitespace at either end and no comma,
   * and there are no more of them than comma-separated pieces.
   */
  lemma RecipientsAreClean(toEmails: string)
    ensures var r := Recipients(toEmails);
      |r| <= Occurrences(toEmails, ',') + 1 && forall i :: 0 <= i < |r| ==> CleanAddress(r[i])
  {
    var parts := Split(toEmails, ',');
    var trimmed := TrimAll(parts);
    SplitPiecesLackSeparator(toEmails, ',');
    MapAt(parts, Trim);
    forall k | 0 <= k < |trimmed| ensures Trimmed(trimmed[k]) && ',' !in trimmed[k] {
      TrimKeepsCharacters(parts[k]);
      TrimIsTrimmed(parts[k]);
    }
    NonEmptyIsClean(trimmed);
  }

  /**
   * Parsing keeps the left-to-right order of the pieces: the addresses of
   * `a + "," + b` are those of `a` followed by those of `b`.
   */
  lemma RecipientsAround(a: string, b: string)
    ensures Recipients(a + [','] + b) == Recipients(a) + Recipients(b)
  {
    SplitAround(a, b, ',');
    MapAppend(Split(a, ','), Split(b, ','), Trim);
    FilterAppend(TrimAll(Split(a, ',')), TrimAll(Split(b, ',')), IsNonEmpty);
  }

  /** A list of clean addresses joined with commas parses back to the same list. */
  lemma RecipientsOfJoin(addresses: seq<string>)
    requires addresses != []
    requires forall i :: 0 <= i < |addresses| ==> CleanAddress(addresses[i])
    ensures Recipients(Join(addresses, ',')) == addresses
  {
    AllCleanOfPointwise(addresses);
    RecipientsOfJoinClean(addresses);
  }

  /** Every address of the list is clean, checked from the front. */
  predicate AllClean(addresses: seq<string>)
  {
    addresses == [] || (CleanAddress(addresses[0]) && AllClean(addresses[1..]))
  }

  /** The pointwise check implies the front-to-back one. */
  lemma {:induction false} AllCleanOfPointwise(addresses: seq<string>)
    requires forall i :: 0 <= i < |addresses| ==> CleanAddress(addresses[i])
    ensures AllClean(addresses)
  {
    if addresses != [] {
      AllCleanOfPointwise(addresses[1..]);
    }
  }

  lemma {:induction false} RecipientsOfJoinClean(addresses: seq<string>)
    requires addresses != [] && AllClean(addresses)
    ensures Recipients(Join(addresses, ',')) == addresses
  {
    var a, rest := addresses[0], addresses[1..];
    RecipientsOfClean(a);
    JoinCons(addresses, ',');
    if rest != [] {
      RecipientsOfJoinClean(rest);
      RecipientsAround(a, Join(rest, ','));
    }
    HeadTail(addresses);
  }

  /** A single clean address parses to itself. */
  lemma RecipientsOfClean(a: string)
    requires CleanAddress(a)
    ensures Recipients(a) == [a]
  {
    SplitNoSeparator(a, ',');
    TrimOfTrimmed(a);
    assert TrimAll([a]) == [Trim(a)] + Map([], Trim);
    assert Filter([a], IsNonEmpty) == [a] + Filter([], IsNonEmpty);
  }

  /** Every character of `s` is a comma. */
  predicate OnlyCommas(s: string)
  {
    forall i :: 0 <= i < |s| ==> s[i] == ','
  }

  /**
   * The recipient check does not guarantee a recipient: a field of nothing but
   * commas is not blank, so a custom send with it passes the checks, yet it parses
   * to no address at all.
   */
  lemma CommasPassWithNoRecipients(toEmails: string, subject: string, message: string)
    requires toEmails != [] && OnlyCommas(toEmails) && subject != "" && message != ""
    ensures Validate(Custom, toEmails, subject, message).None?
    ensures Recipients(toEmails) == []
  {
    CommaIsNotWhitespace();
    assert !IsWhitespace(toEmails[0]);
    var pieces := Split(toEmails, ',');
    SplitOfCommas(toEmails);
    MapAt(pieces, Trim);
    TrimEmptyIff([]);
    FilterNone(TrimAll(pieces), IsNonEmpty);
  }

  lemma CommaIsNotWhitespace()
    ensures !IsWhitespace(',')
  {
    assert ',' !in WhitespaceChars;
    ListedIsIn(',', WhitespaceChars);
  }

  /** Splitting a string of commas on commas gives empty pieces only. */
  lemma {:induction false} SplitOfCommas(s: string)
    requires OnlyCommas(s)
    ensures forall i :: 0 <= i < |Split(s, ',')| ==> Split(s, ',')[i] == []
  {
    if s != [] {
      var rest := Split(s[1..], ',');
      SplitOfCommas(s[1..]);
      SplitCons(',', s[1..], ',');
      assert s == [','] + s[1..];
      forall i | 0 < i < |Split(s, ',')| ensures Split(s, ',')[i] == [] {
        assert Split(s, ',')[i] == rest[i - 1];
      }
    }
  }

  class EmailPage {
    var sendType: SendType
    var toEmails: string
    var subject: string
    var message: string
    var sending: bool
    var sendResult: Option<SendResult>
    /** The alerts shown so far. */
    var alerts: seq<Alert>
    /** The requests posted so far. */
    var posted: seq<SendRequest>
    /** The `loadStats` refreshes requested by successful sends. */
    var statsRefreshes: nat

    /** The initial `useState` values. */
    constructor ()
      ensures sendType == Custom && toEmails == "" && subject == "" && message == ""
      ensures !sending && sendResult == None && alerts == [] && posted == [] && statsRefreshes == 0
    {
      sendType := Custom;
      toEmails, subject, message := "", "", "";
      sending := false;
      sendResult := None;
      alerts, posted := [], [];
      statsRefreshes := 0;
    }

    /**
     * `disabled={sending || !subject || !message}` on the send button: disabled
     * exactly while a send is in flight or when the first check of the handler would
     * alert.
     */
    predicate SendDisabled()
      reads this
      ensures SendDisabled() <==>
        sending || Validate(sendType, toEmails, subject, message) == Some(FillSubjectAndMessage)
    {
      sending || subject == "" || message == ""
    }

    /** The `onChange` handlers of the form. */
    method EditForm(sendType: SendType, toEmails: string, subject: string, message: string)
      modifies this`sendType, this`toEmails, this`subject, this`message
      ensures this.sendType == sendType && this.toEmails == toEmails
      ensures this.subject == subject && this.message == message
    {
      this.sendType, this.toEmails, this.subject, this.message := sendType, toEmails, subject, message;
    }

    /**
     * `handleSendEmail` up to the `await`: an alert and no other change when the form
     * is incomplete; otherwise `sending` is set, `sendResult` cleared and the request
     * posted.
     */
    method HandleSendEmail() returns (request: Option<SendRequest>)
      modifies this`sending, this`sendResult, this`alerts, this`posted
      ensures Validate(sendType, toEmails, subject, message).Some? ==>
        && request.None? && alerts == old(alerts) + [Validate(sendType, toEmails, subject, message).value]
        && posted == old(posted) && sending == old(sending) && sendResult == old(sendResult)
      ensures Validate(sendType, toEmails, subject, message).None? ==>
        && request == Some(SendRequest(EmailList(sendType, toEmails), subject, message, sendType))
        && posted == old(posted) + [request.value] && alerts == old(alerts)
        && sending && sendResult.None?
    ensures request.Some? ==> SendDisabled()
    {
      // `Validate` holds the two early-return checks of the handler.
      var alert := Validate(sendType, toEmails, subject, message);
      if alert.Some? {
        alerts := alerts + [alert.value];
        return None;
      }
      sending := true;
      sendResult := None;
      var emailList := EmailList(sendType, toEmails);
      request := Some(SendRequest(emailList, subject, message, sendType));
      posted := posted + [request.value];
    }

    /**
     * The rest of `handleSendEmail` once the post settles: the reply or the error is
     * recorded, the form is cleared and the stats refreshed only when at least one
     * email went out, and `sending` is reset whatever happened.
     */
    method SettleSend(reply: Reply)
      requires sending
      modifies this`sending, this`sendResult, this`toEmails, this`subject, this`message, this`statsRefreshes
      ensures !sending
      ensures sendResult == Some(match reply
        case Returned(ok, failed) => Delivered(ok, failed)
        case Threw(m) => Failed(if m == "" then SendFailed else m))
      ensures var cleared := reply.Returned? && reply.successCount > 0;
        && (toEmails, subject, message) == (if cleared then ("", "", "") else old((toEmails, subject, message)))
        && statsRefreshes == old(statsRefreshes) + (if cleared then 1 else 0)
    {
      match reply {
        case Returned(ok, failed) =>
          sendResult := Some(Delivered(ok, failed));
          if ok > 0 {
            toEmails, subject, message := "", "", "";
            statsRefreshes := statsRefreshes + 1;
          }
        case Threw(m) =>
          sendResult := Some(Failed(if m == "" then SendFailed else m));
      }
      sending := false;
    }
  }

  /**
   * A send that passes the checks always has the button enabled until it is pressed:
   * the checks ask for at least what the button does.
   */
  lemma ValidFormEnablesButton(sendType: SendType, toEmails: string, subject: string, message: string)
    ensures Validate(sendType, toEmails, subject, message).None? ==> subject != "" && message != ""
  {
  }

  /**
   * A custom recipient string yields at least one address exactly when it holds a
   * character that is neither whitespace nor a comma.
   */
  lemma RecipientsNonEmptyIff(toEmails: string)
    ensures Recipients(toEmails) != [] <==>
      exists i :: 0 <= i < |toEmails| && !IsWhitespace(toEmails[i]) && toEmails[i] != ','
  {
    NonEmptyTrimAll(Split(toEmails, ','));
    SplitHasContent(toEmails);
    HasAddressCharIff(toEmails);
  }

  /** Some piece is not all whitespace. */
  predicate AnyNotBlank(parts: seq<string>)
  {
    parts != [] && (!AllWhitespace(parts[0]) || AnyNotBlank(parts[1..]))
  }

  /** Some character is neither whitespace nor a comma. */
  predicate HasAddressChar(s: string)
  {
    s != [] && ((!IsWhitespace(s[0]) && s[0] != ',') || HasAddressChar(s[1..]))
  }

  lemma {:induction false} HasAddressCharIff(s: string)
    ensures HasAddressChar(s) <==> exists i :: 0 <= i < |s| && !IsWhitespace(s[i]) && s[i] != ','
  {
    if s != [] {
      HasAddressCharIff(s[1..]);
      if HasAddressChar(s[1..]) {
        var i :| 0 <= i < |s[1..]| && !IsWhitespace(s[1..][i]) && s[1..][i] != ',';
        assert s[i + 1] == s[1..][i];
      }
      if exists i :: 0 <= i < |s| && !IsWhitespace(s[i]) && s[i] != ',' {
        var i :| 0 <= i < |s| && !IsWhitespace(s[i]) && s[i] != ',';
        if i > 0 {
          assert s[1..][i - 1] == s[i];
        }
      }
    }
  }

  /** Some trimmed piece survives the filter exactly when some piece is not all whitespace. */
  lemma {:induction false} NonEmptyTrimAll(parts: seq<string>)
    ensures NonEmpty(TrimAll(parts)) != [] <==> AnyNotBlank(parts)
  {
    if parts != [] {
      NonEmptyTrimAll(parts[1..]);
      TrimEmptyIff(parts[0]);
      var t := TrimAll(parts);
      assert t == [Trim(parts[0])] + TrimAll(parts[1..]);
    }
  }

  /** Some comma-separated piece is not all whitespace exactly when the string has an address character. */
  lemma {:induction false} SplitHasContent(s: string)
    ensures AnyNotBlank(Split(s, ',')) <==> HasAddressChar(s)
  {
    if s == [] {
      assert Split(s, ',') == [[]];
    } else {
      var c, t := s[0], s[1..];
      var parts, rest := Split(s, ','), Split(t, ',');
      SplitHasContent(t);
      SplitCons(c, t, ',');
      assert s == [c] + t;
      if c == ',' {
        assert parts == [[]] + rest;
        assert parts[1..] == rest;
      } else {
        assert parts == [[c] + rest[0]] + rest[1..];
        assert parts[1..] == rest[1..];
        assert ([c] + rest[0])[1..] == rest[0];
      }
    }
  }
}
