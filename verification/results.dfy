/**
 The failure-carrying datatypes shared by the mail helpers: `Option` for the
 Python `None`-or-value arguments, and `Result` for the two exceptions the core
 lets propagate to its caller.
 */
module Results {

  /** A Python argument that may be `None`. */
  datatype Option<+T> = None | Some(value: T)

  /** The exceptions `send_mail` and `send_mail_template` propagate. */
  datatype Error =
    | AttachmentUnreadable(path: string)        // `open(attachment, "rb")` failed
    | TemplateDoesNotExist(names: seq<string>)  // no candidate template name was found

  /** Either the value an operation returns, or the exception it raises. */
  datatype Result<+T> = Ok(value: T) | Err(error: Error)
}
