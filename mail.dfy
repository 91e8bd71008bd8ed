/** The e-mail wrapper (PHP_Forms_Mail): collects recipients and body lines, and
    assembles the arguments of PHP's mail() when the message is sent. */
module Mailing {
  import opened Wrappers
  import opened Text

  /** The exceptions send() throws, in the order it checks them. */
  datatype MailError = NoRecipient | NoSender | NoSubject

  /** The four arguments send() passes to mail(). */
  datatype Message = Message(to: string, subject: string, body: string, header: string)

  /** The sender as the From header shows it: "name <mail>", or the bare address
      when there is no name. */
  function FromString(name: string, mail: string): (r: string)
    ensures name == "" ==> r == mail
    ensures name != "" ==> r == name + " <" + mail + ">"
  {
    if name != "" then name + " <" + mail + ">" else mail
  }

  /** The Content-type header for HTML or plain-text mail. */
  function ContentType(isHtml: bool): string {
    if isHtml then "Content-type: text/html; charset=utf-8"
    else "Content-type: text/plain; charset=utf-8"
  }

  /** The additional headers, built as send() builds them: the From line and a line
      break, the Bcc line and a line break when there are hidden recipients, then
      the content type. */
  function Header(from: string, bcc: seq<string>, isHtml: bool): string {
    "From: " + from + "\r\n"
    + (if |bcc| > 0 then "Bcc: " + Join(bcc, ", ") + "\r\n" else "")
    + ContentType(isHtml)
  }

  /** The header lines in order. */
  function HeaderLines(from: string, bcc: seq<string>, isHtml: bool): (lines: seq<string>)
    ensures |lines| == (if bcc == [] then 2 else 3)
    ensures lines[0] == "From: " + from && lines[|lines| - 1] == ContentType(isHtml)
    ensures bcc != [] ==> lines[1] == "Bcc: " + Join(bcc, ", ")
  {
    ["From: " + from] + (if |bcc| > 0 then ["Bcc: " + Join(bcc, ", ")] else []) + [ContentType(isHtml)]
  }

  /** The header is its lines separated by CRLF, with no line break at the end:
      a From line, a Bcc line exactly when there are hidden recipients, and the
      content type. */
  lemma HeaderIsLines(from: string, bcc: seq<string>, isHtml: bool)
    ensures Header(from, bcc, isHtml) == Join(HeaderLines(from, bcc, isHtml), "\r\n")
  {
    var f, c := "From: " + from, ContentType(isHtml);
    if bcc == [] {
      assert HeaderLines(from, bcc, isHtml) == [f, c];
      JoinTwo(f, c, "\r\n");
      assert Header(from, bcc, isHtml) == f + "\r\n" + c;
    } else {
      var b := "Bcc: " + Join(bcc, ", ");
      assert HeaderLines(from, bcc, isHtml) == [f, b, c];
      JoinThree(f, b, c, "\r\n");
    }
  }

  /** Two parts joined: the separator between them. */
  lemma JoinTwo(f: string, c: string, sep: string)
    ensures Join([f, c], sep) == f + sep + c
  {
    assert [f, c][..1] == [f];
  }

  /** Three parts joined: the separator between each pair. */
  lemma JoinThree(f: string, b: string, c: string, sep: string)
    ensures Join([f, b, c], sep) == f + sep + (b + sep) + c
  {
    assert [f, b, c][..2] == [f, b];
    JoinTwo(f, b, sep);
  }

  class Mail {
    var lines: seq<string>
    /** Visible recipients (To) and hidden recipients (BCC), in the order added. */
    var recipientsTo: seq<string>
    var recipientsBcc: seq<string>
    const fromMail: string
    const fromName: string
    const subject: string
    const isHtml: bool

    /** __construct($fromMail, $fromName, $subject, $is_html = false): sender and
        subject are stored trimmed. */
    constructor(fromMail: string, fromName: string, subject: string, isHtml: bool := false)
      ensures this.fromMail == Trim(fromMail) && this.fromName == Trim(fromName)
      ensures this.subject == Trim(subject) && this.isHtml == isHtml
      ensures lines == [] && recipientsTo == [] && recipientsBcc == []
    {
      this.fromMail := Trim(fromMail);
      this.fromName := Trim(fromName);
      this.subject := Trim(subject);
      this.isHtml := isHtml;
      lines := [];
      recipientsTo := [];
      recipientsBcc := [];
    }

    /** addRecipient($mail, $isBCC = false). */
    method AddRecipient(mail: string, isBcc: bool := false)
      modifies this
      ensures isBcc ==> recipientsBcc == old(recipientsBcc) + [mail] && recipientsTo == old(recipientsTo)
      ensures !isBcc ==> recipientsTo == old(recipientsTo) + [mail] && recipientsBcc == old(recipientsBcc)
      ensures lines == old(lines)
    {
      if isBcc {
        recipientsBcc := recipientsBcc + [mail];
      } else {
        recipientsTo := recipientsTo + [mail];
      }
    }

    /** addLine($text): the body gains a line break and the text. */
    method AddLine(text: string)
      modifies this
      ensures lines == old(lines) + [text]
      ensures old(lines) != [] ==> GetBody() == old(GetBody()) + "\n" + text
      ensures old(lines) == [] ==> GetBody() == text
      ensures recipientsTo == old(recipientsTo) && recipientsBcc == old(recipientsBcc)
    {
      if lines != [] {
        JoinAppend(lines, "\n", text);
      }
      lines := lines + [text];
    }

    /** getBody(): the lines joined by line feeds. */
    function GetBody(): string
      reads this
    {
      Join(lines, "\n")
    }

    /** getText(). */
    function GetText(): string
      reads this
    {
      GetBody()
    }

    /** send(): the checks in order (some recipient, a sender address, a subject),
        then the arguments of mail(): the visible recipients joined by ", ", the
        subject, the body and the additional headers. */
    function Send(): (r: Result<Message, MailError>)
      reads this
      ensures r == Err(NoRecipient) <==> recipientsTo == [] && recipientsBcc == []
      ensures r == Err(NoSender) <==> (recipientsTo != [] || recipientsBcc != []) && fromMail == ""
      ensures r == Err(NoSubject)
          <==> (recipientsTo != [] || recipientsBcc != []) && fromMail != "" && subject == ""
      ensures r.Ok? ==>
        && r.value.to == Join(recipientsTo, ", ") && r.value.subject == subject
        && r.value.body == GetBody()
        && r.value.header == Header(FromString(fromName, fromMail), recipientsBcc, isHtml)
    {
      if |recipientsTo| <= 0 && |recipientsBcc| <= 0 then Err(NoRecipient)
      else if fromMail == "" then Err(NoSender)
      else if subject == "" then Err(NoSubject)
      else
        var header := Header(FromString(fromName, fromMail), recipientsBcc, isHtml);
        Ok(Message(Join(recipientsTo, ", "), subject, GetBody(), header))
    }
  }
}
