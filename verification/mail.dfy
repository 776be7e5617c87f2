/**
 `send_mail`: one message per recipient, each body, HTML alternative and
 attachment encrypted for that recipient exactly when GnuPG is enabled and the
 address registry holds a key for the recipient.

 The collaborators become inputs: `useGnupg` is the `USE_GNUPG` setting,
 `registry` the addresses the `Address` table holds, `files` the readable
 attachment files with their contents, and `encrypt(body, addr)` the text of
 `gpg.encrypt(body, addr)`. Sending appends the message to the returned
 sequence.
 */
module Mail {
  import opened Results
  import opened PyStr

  /** `recipient_list`: a single address string, or a list of addresses. */
  datatype Recipients = One(address: string) | Many(addresses: seq<string>)

  /** The message class `send_mail` picks. */
  datatype MessageClass = EmailMessage | EmailMultiAlternatives

  /** An alternative body with its MIME type (`attach_alternative`). */
  datatype Alternative = Alternative(content: string, mimetype: string)

  /** A named attachment part (`attach(filename, content)`). */
  datatype Part = Part(filename: string, content: string)

  /** One sent message, addressed to `to`. */
  datatype Message = Message(
    kind: MessageClass,
    subject: string,
    body: string,
    from: string,
    to: seq<string>,
    alternatives: seq<Alternative>,
    attachments: seq<Part>)

  /** `gpg.encrypt(body, addr)` converted to text. */
  type Cipher = (string, string) -> string

  const HtmlMimetype := "text/html"

  /** Python truthiness of `html_message`: present and not the empty string. */
  predicate HasHtml(html: Option<string>)
  {
    html.Some? && html.value != []
  }

  /** The normalised `recipient_list`: a single string becomes a one-element list. */
  function RecipientList(recipients: Recipients): (rs: seq<string>)
  {
    match recipients
    case One(a) => [a]
    case Many(rs) => rs
  }

  /** `valid_key_addresses`: the recipients with a registered key, or none when GnuPG is off. */
  function KeyedRecipients(useGnupg: bool, registry: set<string>, rs: seq<string>): (keyed: set<string>)
  {
    if useGnupg then set a | a in rs && a in registry else {}
  }

  /** `encrypt_if_key(body, addr)`: encrypted when GnuPG is on and `addr` is among `keyed`. */
  function EncryptIfKey(useGnupg: bool, keyed: set<string>, encrypt: Cipher, body: string, addr: string): (sealed: string)
  {
    if useGnupg && addr in keyed then encrypt(body, addr) else body
  }

  /** Index of the first path that is not a readable file, or `|paths|` when all are. */
  function FirstUnreadable(paths: seq<string>, files: map<string, string>): (i: nat)
    ensures i <= |paths|
    ensures forall k :: 0 <= k < i ==> paths[k] in files
    ensures i < |paths| ==> paths[i] !in files
  {
    if paths == [] || paths[0] !in files then 0 else 1 + FirstUnreadable(paths[1..], files)
  }

  /**
   Loading `attachments`: each path paired with its base name and contents, or
   the first path that cannot be opened.
   */
  function LoadAttachments(paths: seq<string>, files: map<string, string>): (r: Result<seq<Part>>)
    ensures r.Ok? <==> FirstUnreadable(paths, files) == |paths|
    ensures r.Ok? ==> |r.value| == |paths|
    ensures r.Ok? ==> forall i :: 0 <= i < |paths| ==>
      r.value[i] == Part(Basename(paths[i]), files[paths[i]])
    ensures r.Err? ==>
      FirstUnreadable(paths, files) < |paths|
      && r.error == AttachmentUnreadable(paths[FirstUnreadable(paths, files)])
  {
    if paths == [] then Ok([])
    else if paths[0] !in files then Err(AttachmentUnreadable(paths[0]))
    else
      var rest := LoadAttachments(paths[1..], files);
      if rest.Err? then rest
      else
        var parts := [Part(Basename(paths[0]), files[paths[0]])] + rest.value;
        assert forall i :: 1 <= i < |paths| ==> parts[i] == rest.value[i - 1] && paths[1..][i - 1] == paths[i];
        Ok(parts)
  }

  /** What every recipient's message shares before encryption. */
  datatype Draft = Draft(
    kind: MessageClass,
    subject: string,
    body: string,
    from: string,
    html: Option<string>,
    parts: seq<Part>)

  /**
   The message `addr` receives: the draft addressed to `addr` alone, with its
   body, its HTML alternative (when there is HTML) and every part, under its
   own name and in order, sealed for `addr`.
   */
  function Compose(useGnupg: bool, keyed: set<string>, encrypt: Cipher, d: Draft, addr: string): (m: Message)
  {
    var seal := (text: string) => EncryptIfKey(useGnupg, keyed, encrypt, text, addr);
    Message(d.kind, d.subject, seal(d.body), d.from, [addr],
      if HasHtml(d.html) then [Alternative(seal(d.html.value), HtmlMimetype)] else [],
      seq(|d.parts|, j requires 0 <= j < |d.parts| => Part(d.parts[j].filename, seal(d.parts[j].content))))
  }

  /** The send loop: one composed message per recipient, in order. */
  function FanOut(useGnupg: bool, keyed: set<string>, encrypt: Cipher, d: Draft, rs: seq<string>): (sent: seq<Message>)
    ensures |sent| == |rs|
    ensures forall i :: 0 <= i < |rs| ==> sent[i] == Compose(useGnupg, keyed, encrypt, d, rs[i])
  {
    if rs == [] then []
    else [Compose(useGnupg, keyed, encrypt, d, rs[0])] + FanOut(useGnupg, keyed, encrypt, d, rs[1..])
  }

  /** The settings and stores `send_mail` consults. */
  datatype Env = Env(useGnupg: bool, registry: set<string>, files: map<string, string>)

  /** The arguments of one `send_mail` call that shape the messages. */
  datatype Request = Request(
    subject: string,
    message: string,
    from: string,
    recipients: Recipients,
    attachments: seq<string>,
    html: Option<string>)

  /** Every attachment path of the request names a file that can be opened. */
  predicate Readable(env: Env, req: Request)
  {
    forall j :: 0 <= j < |req.attachments| ==> req.attachments[j] in env.files
  }

  /**
   The message `addr` must receive: addressed to `addr` alone, multipart exactly
   when there are attachments or an HTML body, and every body, the HTML
   alternative and every attachment (named by its base name, in input order)
   encrypted for `addr` exactly when GnuPG is on and `addr` has a registered key.
   */
  predicate DeliveredTo(env: Env, encrypt: Cipher, req: Request, addr: string, m: Message)
    requires Readable(env, req)
  {
    var seal := (text: string) => EncryptIfKey(env.useGnupg, env.registry, encrypt, text, addr);
    && m.to == [addr]
    && m.subject == req.subject
    && m.from == req.from
    && (m.kind == EmailMultiAlternatives <==> |req.attachments| > 0 || HasHtml(req.html))
    && m.body == seal(req.message)
    && m.alternatives == (if HasHtml(req.html) then [Alternative(seal(req.html.value), HtmlMimetype)] else [])
    && |m.attachments| == |req.attachments|
    && forall j :: 0 <= j < |req.attachments| ==>
         m.attachments[j] == Part(Basename(req.attachments[j]), seal(env.files[req.attachments[j]]))
  }

  /** The draft `send_mail` builds once the attachments are loaded. */
  function DraftOf(req: Request, parts: seq<Part>): (d: Draft)
  {
    var kind := if |parts| > 0 || HasHtml(req.html) then EmailMultiAlternatives else EmailMessage;
    Draft(kind, req.subject, req.message, req.from, req.html, parts)
  }

  /**
   The composed message satisfies `DeliveredTo`: encrypting for members of the
   recipient-restricted key set is encrypting for registered recipients.
   */
  lemma ComposeDelivers(env: Env, encrypt: Cipher, req: Request, parts: seq<Part>, addr: string)
    requires Readable(env, req)
    requires addr in RecipientList(req.recipients)
    requires |parts| == |req.attachments|
    requires forall j :: 0 <= j < |parts| ==>
      parts[j] == Part(Basename(req.attachments[j]), env.files[req.attachments[j]])
    ensures DeliveredTo(env, encrypt, req, addr,
      Compose(env.useGnupg, KeyedRecipients(env.useGnupg, env.registry, RecipientList(req.recipients)),
              encrypt, DraftOf(req, parts), addr))
  {
  }

  /**
   `send_mail(subject, message, from_email, recipient_list, attachments=..., html_message=...)`:
   the messages sent, in order, or the exception raised before anything is sent.
   */
  function SendMail(env: Env, encrypt: Cipher, req: Request): (r: Result<seq<Message>>)
    // an unreadable attachment aborts the whole call before any message is sent
    ensures r.Err? <==> !Readable(env, req)
    ensures r.Err? ==>
      FirstUnreadable(req.attachments, env.files) < |req.attachments|
      && r.error == AttachmentUnreadable(req.attachments[FirstUnreadable(req.attachments, env.files)])
    // otherwise one message per recipient, in order, the i-th for the i-th recipient
    ensures r.Ok? ==> |r.value| == |RecipientList(req.recipients)|
    ensures r.Ok? ==> forall i :: 0 <= i < |r.value| ==>
      DeliveredTo(env, encrypt, req, RecipientList(req.recipients)[i], r.value[i])
  {
    var rs := RecipientList(req.recipients);
    var keyed := KeyedRecipients(env.useGnupg, env.registry, rs);
    var loaded := if |req.attachments| > 0 then LoadAttachments(req.attachments, env.files) else Ok([]);
    match loaded
    case Err(e) => Err(e)
    case Ok(parts) =>
      var sent := FanOut(env.useGnupg, keyed, encrypt, DraftOf(req, parts), rs);
      assert forall i :: 0 <= i < |sent| ==> DeliveredTo(env, encrypt, req, rs[i], sent[i]) by {
        forall i | 0 <= i < |sent|
          ensures DeliveredTo(env, encrypt, req, rs[i], sent[i])
        {
          ComposeDelivers(env, encrypt, req, parts, rs[i]);
        }
      }
      Ok(sent)
  }

  /** `DeliveredTo` pins down every field of a message: at most one message satisfies it. */
  lemma DeliveredUnique(env: Env, encrypt: Cipher, req: Request, addr: string, m1: Message, m2: Message)
    requires Readable(env, req)
    requires DeliveredTo(env, encrypt, req, addr, m1) && DeliveredTo(env, encrypt, req, addr, m2)
    ensures m1 == m2
  {
    assert m1.kind == m2.kind;
    assert m1.attachments == m2.attachments;
  }

  /** A single address string is sent exactly as the one-element list holding it. */
  lemma SingleRecipient(env: Env, encrypt: Cipher, req: Request, addr: string)
    requires req.recipients == One(addr)
    ensures SendMail(env, encrypt, req) == SendMail(env, encrypt, req.(recipients := Many([addr])))
    ensures SendMail(env, encrypt, req).Ok? ==>
      |SendMail(env, encrypt, req).value| == 1 && SendMail(env, encrypt, req).value[0].to == [addr]
  {
  }

  /**
   No leakage between recipients: the message a recipient receives depends only
   on that recipient, not on who else is on the list.
   */
  lemma RecipientsIndependent(env: Env, encrypt: Cipher, req1: Request, req2: Request, i: nat, j: nat)
    requires req1 == req2.(recipients := req1.recipients)
    requires SendMail(env, encrypt, req1).Ok?
    requires i < |RecipientList(req1.recipients)| && j < |RecipientList(req2.recipients)|
    requires RecipientList(req1.recipients)[i] == RecipientList(req2.recipients)[j]
    ensures SendMail(env, encrypt, req2).Ok?
    ensures SendMail(env, encrypt, req1).value[i] == SendMail(env, encrypt, req2).value[j]
  {
    var addr := RecipientList(req1.recipients)[i];
    var m1, m2 := SendMail(env, encrypt, req1).value[i], SendMail(env, encrypt, req2).value[j];
    assert DeliveredTo(env, encrypt, req2, addr, m1);
    DeliveredUnique(env, encrypt, req2, addr, m1, m2);
  }

  /** With GnuPG disabled every message carries the plain body, HTML and attachment data. */
  lemma GnupgOffSendsPlain(env: Env, encrypt: Cipher, req: Request)
    requires !env.useGnupg
    requires SendMail(env, encrypt, req).Ok?
    ensures forall m :: m in SendMail(env, encrypt, req).value ==>
      && m.body == req.message
      && (HasHtml(req.html) ==> m.alternatives == [Alternative(req.html.value, HtmlMimetype)])
      && forall j :: 0 <= j < |m.attachments| ==> m.attachments[j].content == env.files[req.attachments[j]]
  {
  }

  /**
   Of several recipients, when only `addr` has a registered key and GnuPG is on,
   the messages for everyone else carry the plain body.
   */
  lemma OnlyKeyedRecipientEncrypted(env: Env, encrypt: Cipher, req: Request, addr: string)
    requires env.useGnupg
    requires forall a :: a in RecipientList(req.recipients) && a in env.registry ==> a == addr
    requires SendMail(env, encrypt, req).Ok?
    ensures forall i :: 0 <= i < |SendMail(env, encrypt, req).value| ==>
      var m, to := SendMail(env, encrypt, req).value[i], RecipientList(req.recipients)[i];
      m.body == if to == addr && addr in env.registry then encrypt(req.message, addr) else req.message
  {
  }
}
