/**
 `send_mail_template`: render `<template>.txt` (required) and `<template>.html`
 (optional), looking under `email_extras/` before the bare name, then send the
 rendered bodies with `send_mail`. The template store maps a template name to
 the text it renders to in the caller's context.
 */
module Templates {
  import opened Results
  import opened Mail

  /** The outcome of `loader.select_template(names)`. */
  datatype Lookup = Found(text: string) | NotFound

  /** `loader.select_template(names)`: the first name the store holds. */
  function SelectTemplate(store: map<string, string>, names: seq<string>): (r: Lookup)
    ensures r.NotFound? <==> forall i :: 0 <= i < |names| ==> names[i] !in store
    ensures r.Found? ==>
      exists i :: && 0 <= i < |names| && names[i] in store && r.text == store[names[i]]
                  && forall k :: 0 <= k < i ==> names[k] !in store
  {
    if names == [] then NotFound
    else if names[0] in store then Found(store[names[0]])
    else SelectTemplate(store, names[1..])
  }

  const Namespace := "email_extras/"

  /** The name `"%s.%s" % (template, ext)`. */
  function TemplateName(template: string, ext: string): (name: string)
  {
    template + "." + ext
  }

  /** The candidate names, in search order. */
  function Candidates(template: string, ext: string): (names: seq<string>)
  {
    [Namespace + TemplateName(template, ext), TemplateName(template, ext)]
  }

  /**
   `render(ext, required)`: the namespaced template's text if present, else the
   bare-named one's; when neither exists, an error if required and no text
   (`None`) otherwise.
   */
  function Render(store: map<string, string>, template: string, ext: string, required: bool)
    : (r: Result<Option<string>>)
    ensures r.Err? <==> required && Namespace + TemplateName(template, ext) !in store
                                 && TemplateName(template, ext) !in store
    ensures r.Err? ==> r.error == TemplateDoesNotExist(Candidates(template, ext))
    ensures r == Ok(None) <==> !required && Namespace + TemplateName(template, ext) !in store
                                         && TemplateName(template, ext) !in store
    ensures Namespace + TemplateName(template, ext) in store ==>
      r == Ok(Some(store[Namespace + TemplateName(template, ext)]))
    ensures Namespace + TemplateName(template, ext) !in store && TemplateName(template, ext) in store ==>
      r == Ok(Some(store[TemplateName(template, ext)]))
  {
    var names := Candidates(template, ext);
    match SelectTemplate(store, names)
    case Found(text) => Ok(Some(text))
    case NotFound =>
      assert names[0] !in store && names[1] !in store;
      if required then Err(TemplateDoesNotExist(names)) else Ok(None)
  }

  /**
   `send_mail_template(subject, template, ...)` with the remaining `send_mail`
   arguments: a missing text template raises before anything is sent; otherwise
   the text template becomes the body and the HTML template, when present, the
   HTML alternative.
   */
  function SendMailTemplate(
    env: Env, encrypt: Cipher, store: map<string, string>,
    subject: string, template: string, from: string, recipients: Recipients, attachments: seq<string>)
    : (r: Result<seq<Message>>)
    ensures Render(store, template, "txt", true).Err? ==>
      r == Err(TemplateDoesNotExist(Candidates(template, "txt")))
    ensures Render(store, template, "txt", true).Ok? ==>
      var body := Render(store, template, "txt", true).value.value;
      var html := Render(store, template, "html", false).value;
      var req := Request(subject, body, from, recipients, attachments, html);
      && (r.Err? <==> !Readable(env, req))
      && (r.Ok? ==> |r.value| == |RecipientList(recipients)|
                    && forall i :: 0 <= i < |r.value| ==>
                         DeliveredTo(env, encrypt, req, RecipientList(recipients)[i], r.value[i]))
  {
    var txt := Render(store, template, "txt", true);
    if txt.Err? then Err(txt.error)
    else
      var html := Render(store, template, "html", false);
      SendMail(env, encrypt, Request(subject, txt.value.value, from, recipients, attachments, html.value))
  }

  /** A template with no text file raises `TemplateDoesNotExist`: no message is sent. */
  lemma MissingTextTemplate(
    env: Env, encrypt: Cipher, store: map<string, string>,
    subject: string, template: string, from: string, recipients: Recipients, attachments: seq<string>)
    requires Namespace + TemplateName(template, "txt") !in store
    requires TemplateName(template, "txt") !in store
    ensures SendMailTemplate(env, encrypt, store, subject, template, from, recipients, attachments)
      == Err(TemplateDoesNotExist([Namespace + template + ".txt", template + ".txt"]))
  {
    assert TemplateName(template, "txt") == template + ".txt";
    assert Namespace + TemplateName(template, "txt") == Namespace + template + ".txt";
    assert Candidates(template, "txt") == [Namespace + template + ".txt", template + ".txt"];
  }

  /**
   A template with a text file (under either name) and no HTML file, sent
   without attachments, goes out as plain messages with no HTML alternative.
   */
  lemma TextOnlyTemplateIsPlain(
    env: Env, encrypt: Cipher, store: map<string, string>,
    subject: string, template: string, from: string, recipients: Recipients)
    requires Namespace + TemplateName(template, "txt") in store || TemplateName(template, "txt") in store
    requires Namespace + TemplateName(template, "html") !in store
    requires TemplateName(template, "html") !in store
    ensures SendMailTemplate(env, encrypt, store, subject, template, from, recipients, []).Ok?
    ensures forall m :: m in SendMailTemplate(env, encrypt, store, subject, template, from, recipients, []).value ==>
      m.kind == EmailMessage && m.alternatives == []
  {
  }

  /**
   The non-empty namespaced HTML template wins over a bare-named one: every
   message sent carries it, sealed for its recipient, as its HTML alternative.
   */
  lemma NamespacedHtmlPreferred(
    env: Env, encrypt: Cipher, store: map<string, string>,
    subject: string, template: string, from: string, recipients: Recipients, attachments: seq<string>)
    requires Namespace + TemplateName(template, "txt") in store || TemplateName(template, "txt") in store
    requires Namespace + TemplateName(template, "html") in store
    requires store[Namespace + TemplateName(template, "html")] != []
    requires SendMailTemplate(env, encrypt, store, subject, template, from, recipients, attachments).Ok?
    ensures var sent := SendMailTemplate(env, encrypt, store, subject, template, from, recipients, attachments).value;
      forall i :: 0 <= i < |sent| ==>
        sent[i].alternatives == [Alternative(
          EncryptIfKey(env.useGnupg, env.registry, encrypt,
                       store[Namespace + TemplateName(template, "html")], RecipientList(recipients)[i]),
          HtmlMimetype)]
  {
  }
}
