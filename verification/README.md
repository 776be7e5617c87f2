# django-email-extras: per-recipient GnuPG mail, modelled in Dafny

django-email-extras sends Django email that is encrypted, recipient by
recipient, with GnuPG whenever the recipient's address has a key registered.
This project models the pure logic of `email_extras/utils.py` and proves
properties about it:

- **`addresses_for_key`** (`Keys`): for every key in the GnuPG key ring that has
  the given key's fingerprint, take each non-empty user id, keep the text after
  its last `<`, and apply Python's `strip(">")`.
- **`send_mail`** (`Mail`): a single address string counts as a one-element
  list. Each file named in `attachments` is read and paired with its base name.
  The message class is multipart exactly when there are attachments or an HTML
  body. One message goes to each recipient, in order. Its body, HTML
  alternative and attachment data are encrypted for that recipient exactly
  when `USE_GNUPG` is on and the recipient's address is in the registry.
- **`send_mail_template`** (`Templates`): the `<template>.txt` text is required
  and `<template>.html` is optional. Each is looked up under `email_extras/`
  first and then under its bare name, and the result is handed to `send_mail`.
- **Python string operations** (`PyStr`): `split` on one character, `lstrip`,
  `rstrip` and `strip` with one character, and `posixpath.basename`, over
  `seq<char>`.

The collaborators become inputs:
- The key ring from `gpg.list_keys()` is a `seq<Key>`.
- The `Address` table is a `set<string>` of registered addresses.
- The readable attachment files are a `map<string, string>` from path to contents.
- `gpg.encrypt(body, addr)`, converted to text, is a function parameter `encrypt`.
- The template store is a `map<string, string>` from template name to the text
  it renders in the caller's context.
- Sending a message appends it to the returned sequence.
- A raised exception is an `Err` of `Results.Error`.

Three details of the code that the model keeps:
- `strip(">")` removes every leading and every trailing `>`, not just one.
- `addresses_for_key` returns a list in key-ring order, which keeps duplicates.
- `if html_message:` treats an empty HTML string as no HTML body (`Mail.HasHtml`).

## Model

| member | source | states |
|---|---|---|
| `PyStr.Split` | email_extras/utils.py:24 | `split("<")` returns one more piece than there are separators. No piece contains the separator, and joining the pieces with it gives back the input. |
| `PyStr.SplitWithoutSeparator` | email_extras/utils.py:24 | Splitting a string that has no separator gives the one-piece list holding that string. |
| `PyStr.SplitAround` | email_extras/utils.py:24 | Splitting `a + c + t` gives the pieces of `a` followed by the pieces of `t`. |
| `PyStr.SplitJoin` | email_extras/utils.py:24 | The reverse round trip: joining pieces that have no separator and splitting again gives the same pieces. |
| `PyStr.JoinLast` | email_extras/utils.py:24 | A join of two or more pieces ends with the separator and then the last piece. |
| `PyStr.AfterLast` | email_extras/utils.py:24 | `split(c)[-1]` contains no `c`. |
| `PyStr.AfterLastIsSuffix` | email_extras/utils.py:24 | `split(c)[-1]` is a suffix of the input, preceded by `c` unless it is the whole input. When `c` does not occur, it is the whole input. |
| `PyStr.AfterLastOf` | email_extras/utils.py:24 | For any `p + c + q` where `q` has no `c`, `split(c)[-1]` is `q`, whatever `p` holds. |
| `PyStr.TrimLeft` | email_extras/utils.py:24 | The left half of `strip`: the result is a suffix of the input. Every removed character is `c`, and the result does not start with `c`. |
| `PyStr.TrimRight` | email_extras/utils.py:24 | The right half of `strip`: the result is a prefix of the input. Every removed character is `c`, and the result does not end with `c`. |
| `PyStr.TrimLeftOf` | email_extras/utils.py:24 | In front of text that does not start with `c`, the left trim removes exactly the leading run of `c`. |
| `PyStr.TrimRightOf` | email_extras/utils.py:24 | After text that does not end with `c`, the right trim removes exactly the trailing run of `c`. |
| `PyStr.Strip` | email_extras/utils.py:24 | `strip(c)` neither starts nor ends with `c`, and is no longer than its input. |
| `PyStr.StripIsSlice` | email_extras/utils.py:24 | `strip(c)` is the slice of the input between its leading run of `c` and its trailing run of `c`. So only `c` characters are removed, and every character of the result comes from the input. |
| `PyStr.StripOf` | email_extras/utils.py:24 | Text wrapped in any runs of `c` that neither starts nor ends with `c` is exactly what `strip(c)` returns. |
| `PyStr.StripIdempotent` | email_extras/utils.py:24 | Stripping twice gives the same result as stripping once. |
| `PyStr.Basename` | email_extras/utils.py:62 | `basename(path)` contains no `/`. |
| `PyStr.BasenameIsLastComponent` | email_extras/utils.py:62 | `basename(path)` is a suffix of the path, preceded by `/` unless it is the whole path. A path with no `/` is its own base name. |
| `Keys.ExtractAddress` | email_extras/utils.py:24 | An extracted address contains no `<`, does not start or end with `>`, and is no longer than its user id. |
| `Keys.ExtractFromBrackets` | email_extras/utils.py:24 | A user id `name<address>`, where the address has no `<` and no `>` at either end, yields exactly `address`. |
| `Keys.ExtractWithoutBracket` | email_extras/utils.py:24 | A user id with no `<` yields itself with its leading and trailing `>` removed. |
| `Keys.NonEmpty` | email_extras/utils.py:25 | The `if address` filter keeps exactly the non-empty user ids. It keeps all of them exactly when none is empty. |
| `Keys.NonEmptyAppend` | email_extras/utils.py:25 | The filter applies to each half of a list independently, so it keeps the order. |
| `Keys.NonEmptyKeepsAll` | email_extras/utils.py:25 | If no user id is empty, the filter returns the list unchanged. |
| `Keys.AddressesOf` | email_extras/utils.py:24-25 | One key's addresses: one per non-empty user id, in order, each extracted from that user id and each a bare address. |
| `Keys.Collect` | email_extras/utils.py:21-26 | Every address the key-ring loop collects is a bare address. |
| `Keys.AddressesForKey` | email_extras/utils.py:16-26 | Every address `addresses_for_key` returns is a bare address. |
| `Keys.CollectAppend` | email_extras/utils.py:22-25 | Splitting the key ring in two gives the addresses of the first part followed by those of the second, so list order is kept. |
| `Keys.CollectOne` | email_extras/utils.py:23-25 | A single key contributes its user ids' addresses when its fingerprint matches, and nothing otherwise. |
| `Keys.CollectCount` | email_extras/utils.py:22-25 | There is exactly one address per non-empty user id of each key whose fingerprint matches. |
| `Keys.CollectEmptyIff` | email_extras/utils.py:22-26 | The loop collects nothing exactly when every key with the fingerprint has only empty user ids. |
| `Keys.NoAddressesIff` | email_extras/utils.py:16-26 | `addresses_for_key` returns `[]` exactly when every key sharing the fingerprint has only empty user ids. |
| `Keys.NoMatchingKey` | email_extras/utils.py:20-26 | If no key in the ring has the fingerprint, the result is empty, and no error is raised. |
| `Keys.AddressesOfTwo` | email_extras/utils.py:24-25 | Two non-empty user ids give their two addresses, in order. |
| `Keys.OneKeyTwoUids` | email_extras/utils.py:16-26 | One matching key with two non-empty user ids gives their two addresses, in order. |
| `Keys.ExtractNamed` | email_extras/utils.py:24 | `Name <a@x.com>` yields `a@x.com`. |
| `Keys.ExtractBare` | email_extras/utils.py:24 | `<b@x.com>` yields `b@x.com`. |
| `Keys.TwoUidExample` | email_extras/utils.py:16-26 | A key with user ids `Name <a@x.com>` and `<b@x.com>` gives `["a@x.com", "b@x.com"]`. |
| `Mail.FirstUnreadable` | email_extras/utils.py:60-61 | Gives the index of the first attachment path that cannot be opened: every earlier path is readable, and the path at that index is not. It is the list length when every path is readable. |
| `Mail.LoadAttachments` | email_extras/utils.py:58-62 | When every file is readable, each path becomes (base name, contents), in order. Otherwise the call fails on the first unreadable path. |
| `Mail.FanOut` | email_extras/utils.py:72-80 | The send loop produces one message per recipient, in order, and the i-th is built for the i-th recipient. |
| `Mail.ComposeDelivers` | email_extras/utils.py:41-55 | Testing membership in the key set restricted to the recipients gives the same result as testing the registry. So each built message meets `DeliveredTo`. |
| `Mail.SendMail` | email_extras/utils.py:29-80 | The call fails exactly when an attachment is unreadable, and then it fails on the first such path before anything is sent. Otherwise message i goes to exactly `[recipient_list[i]]`, with subject and sender unchanged. It is multipart iff there are attachments or an HTML body, and has an HTML alternative iff there is an HTML body. It carries every attachment under its base name, in input order. Its body, alternative and attachment data are `encrypt(x, addr)` when GnuPG is on and `addr` is registered, and unchanged otherwise. |
| `Mail.DeliveredUnique` | email_extras/utils.py:72-79 | `DeliveredTo` fixes every field of the message, so at most one message meets it. |
| `Mail.SingleRecipient` | email_extras/utils.py:36-38 | A single address string behaves exactly like the one-element list holding it, and yields one message addressed to it. |
| `Mail.RecipientsIndependent` | email_extras/utils.py:72-80 | A recipient's message depends only on that recipient, not on who else is on the list, so no other recipient's data leaks into it. |
| `Mail.GnupgOffSendsPlain` | email_extras/utils.py:41-55 | With `USE_GNUPG` off, every body, HTML alternative and attachment is sent unencrypted. |
| `Mail.OnlyKeyedRecipientEncrypted` | email_extras/utils.py:49-55 | If only `addr` has a key, only `addr`'s messages get an encrypted body. Every other recipient's message carries the plain body. |
| `Templates.SelectTemplate` | email_extras/utils.py:101-104 | `select_template` returns not-found exactly when no candidate exists. Otherwise it returns the text of the first candidate that exists. |
| `Templates.Render` | email_extras/utils.py:93-110 | `email_extras/<t>.<ext>` wins over `<t>.<ext>`. When neither exists, the result is `TemplateDoesNotExist` naming both if the template is required, and no text (`None`) if it is optional. |
| `Templates.SendMailTemplate` | email_extras/utils.py:83-113 | A missing text template raises `TemplateDoesNotExist` and nothing is sent. Otherwise `send_mail`'s guarantees hold, with the rendered text as the body and the HTML template, if any, as the HTML body. |
| `Templates.MissingTextTemplate` | email_extras/utils.py:105-107 | With no `.txt` template under either name, the call raises `TemplateDoesNotExist(["email_extras/<t>.txt", "<t>.txt"])`. |
| `Templates.TextOnlyTemplateIsPlain` | email_extras/utils.py:105-113 | With a `.txt` template under either name, no `.html` template and no attachments, every message is a plain `EmailMessage` with no HTML alternative. |
| `Templates.NamespacedHtmlPreferred` | email_extras/utils.py:99-113 | When the call succeeds, the non-empty `email_extras/` HTML template, not the bare-named one, becomes every message's HTML alternative. It is encrypted for that message's recipient when GnuPG is on and the recipient has a key. This holds for any attachments and either location of the `.txt` template. |

## Left out

- Cryptography and the key store: `GPG(gnupghome=GNUPG_HOME)`, `gpg.list_keys()` and `gpg.encrypt` are library calls. The key ring is an input sequence and encryption is the parameter `encrypt`. A failed encryption, which `unicode(...)` turns into empty text, is whatever `encrypt` returns.
- Encryption is modelled as deterministic: `encrypt(body, addr)` gives the same text every time. GnuPG picks a fresh session key on each call, so two encryptions of the same body for the same address differ. Equal messages in the model, as in `Mail.DeliveredUnique` and `Mail.RecipientsIndependent`, or the two messages sent to an address listed twice, are therefore equal only up to that randomness.
- Django ORM: `Address.objects.filter(address__in=...)` is a set of registered addresses. Exact string matching is assumed; database collation is not modelled.
- `attachments=None` is modelled as the empty list, which the source treats the same way through `if attachments:`. A bare string passed as `attachments` cannot be expressed in the model, because the attachments are a list of paths. The source would iterate such a string one character at a time, opening each character as a path.
- File reading (lines 60-62): an attachment is readable exactly when its path is in the file map. The model does not tell apart the reasons `open` can fail.
- Mail transport: `get_connection`, `fail_silently`, `auth_user`/`auth_password`, connection reuse and `msg.send()` are network plumbing. So is a transport failure partway through the loop, which would leave earlier messages sent. A send is modelled as appending to the result.
- Templates.SendMailTemplate: only keyword pass-through of the remaining `send_mail` arguments is modelled. `send_mail(subject=..., message=..., html_message=..., *args, **kwargs)` binds any positional extra to `subject` first, and a `message` or `html_message` in `kwargs` repeats a keyword. Python raises `TypeError` for either before anything is sent, and the model does not represent such calls.
- Template loading and rendering, including the `Context` wrapping of lines 88-91: the store maps a name straight to its rendered text.
- `unicode(...)` and the Python 2 `basestring` test: bodies, HTML and attachment data are all modelled as Python 2 `str`, that is `string`.
- MIME construction inside Django's message classes (headers, encodings) is not modelled. Only the class chosen and what is attached are.
- `basename` follows POSIX paths. Windows path rules are not modelled.
