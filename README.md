# WhatsApp bulk sender — Dafny model

A model of `app.py`, the one-file script that sends a WhatsApp text message to
every contact of a CSV file. `main` reads the contacts file (`read_contacts`),
reads the message file (`read_message`), gives up when either yields nothing,
and then sends the message (`send_whatsapp_message`) to every contact whose
phone number starts with `+`, one at a time and in file order. Contacts
without a `+` are skipped with a warning.

Modules:

- `Optional`: Python's `None`-or-value, used for missing CSV cells and for
  the message.
- `Selection`: the order-preserving "keep and convert" pattern that both
  loops follow. `Select` keeps and converts; `Positions` lists the indices
  kept. Lemmas say which elements are kept and in which order.
- `Contacts`: CSV rows as maps from column name to optional cell text.
  `ReadContacts` is the reading loop, with its two error paths:
  - a missing file gives no rows;
  - a reader that raises part way keeps the contacts collected so far.
- `Trimming`: stripping a character class from both ends of a string, and
  its uniqueness, idempotence and emptiness properties.
- `Message`: Python's `str.isspace` set, written out, and `ReadMessage`.
- `Dispatch`: one send attempt, the `main` loop (`Run`), and its properties.

The outside world comes in as parameters:

- The contacts file is a `CsvFile`: missing, or the rows the reader yields
  plus the row (if any) at which it raises.
- The message file is a `TextFile`: missing, unreadable, or the decoded text.
- The WhatsApp sender is an oracle `outcome: nat -> SendResult`. It gives the
  result of the k-th send attempt, counted from 0. `Run` returns the trace of
  attempts it made. Each attempt records:
  - the phone and message handed to the sender;
  - the sender's result;
  - whether the pause after it was taken.

Two behaviours of `app.py` are easy to miss:

- The 5-second pause happens only after a successful send (`app.py:80`
  sits inside the `try`). It is not taken after every attempt.
- When reading the CSV raises something other than `FileNotFoundError`,
  the contacts collected before the error are returned (`app.py:40`,
  `app.py:54-56`). The result is not an empty list.

## Model

| member | source | states |
|---|---|---|
| Contacts.ReadContacts | app.py:39-56 | the contacts are, in row order, the name and phone of every row read whose Phone cell is present and non-empty. Rows read are none for a missing file, and the rows before the failing one for a reader that raises. The result is a prefix of what a clean read gives, and equals it when nothing raises. |
| Contacts.KeptContactsAre | app.py:44-50 | the j-th contact comes from the j-th row with a non-empty phone, with that row's Name (possibly absent) and Phone. Those rows are taken in increasing order, and every row with a phone is taken. |
| Contacts.KeptPhonesNonEmpty | app.py:46-50 | no loaded contact has an empty phone |
| Contacts.NoPhoneNoContacts | app.py:44-50 | no contacts are loaded if and only if no row has a non-empty Phone cell |
| Selection.PositionsExact | app.py:44-50 | the kept indices are exactly the indices whose element passes the test, listed in strictly increasing order |
| Selection.SelectAt | app.py:44-50 | the j-th kept result is the conversion of the element at the j-th kept index |
| Selection.SelectPrefix | app.py:44-54 | filtering a prefix of the rows gives a prefix of the filtered whole, which is what a read cut short by an error returns |
| Selection.SelectEmpty | app.py:44-50 | the filter keeps nothing if and only if no element passes the test |
| Trimming.Strip | app.py:62 | the stripped string is no longer than the input, and is empty or starts and ends with a character outside the removed class |
| Trimming.StripIsInfix | app.py:62 | the stripped string is the contiguous piece of the input that starts after the leading run of removed characters |
| Trimming.StripRemovesOnlyClass | app.py:62 | everything cut off on either side belongs to the removed class |
| Trimming.StripUnique | app.py:62 | any split into class-only prefix, middle, and class-only suffix, where the middle is empty or has non-class ends, has the middle as its strip |
| Trimming.StripIdempotent | app.py:62 | stripping twice gives the same as stripping once |
| Trimming.StripEmpty | app.py:62-65 | the strip is empty if and only if every character is in the removed class (whitespace, once `Message.IsSpace` is the class) |
| Message.ReadMessage | app.py:59-72 | there is a message exactly when the file was read and is not all whitespace. The message is then the stripped text: non-empty, with no whitespace at either end, and unchanged by stripping again. A missing or unreadable file gives no message. |
| Dispatch.SendWhatsAppMessage | app.py:75-82 | an attempt hands the phone and message to the sender and records its answer. The pause is taken if and only if the sender did not raise. |
| Dispatch.Run | app.py:85-100 | the trace of main is `MainTrace` of the contacts read and the message read, under the sender's answers |
| Dispatch.AttemptsAre | app.py:94-100 | the k-th attempt of the loop goes to the k-th contact whose phone starts with '+', with the message unchanged and the sender's k-th answer |
| Dispatch.DispatchSendsToQualifying | app.py:85-100 | with contacts and a message, main sends exactly once to each contact whose phone starts with '+', in list order, and to no one else |
| Dispatch.FailureIsolation | app.py:75-100 | a send that raises does not stop the loop. Whatever the sender answers, the same attempts are made with the same phones and message, and the k-th records the k-th answer. |
| Dispatch.NoQualifyingContactNoSends | app.py:94-100 | when no contact's phone starts with '+', nothing is sent |
| Dispatch.NoMessageNoSends | app.py:87-93 | a missing, unreadable or all-whitespace message file means nothing is sent |
| Dispatch.NoContactsFileNoSends | app.py:52-53 | a missing contacts file means nothing is sent |
| Dispatch.ThreeContactsExample | app.py:94-100 | with contacts +10000000001, 555 (no leading +) and +10000000003 and the message "Hi", exactly the first and third are messaged, in that order |

## Left out

- The colour log formatter, the logger set-up (`app.py:8-33`) and every
  log call: logging has no effect on what is sent.
- CSV parsing itself: quoting, the header row, blank-line skipping,
  surplus or missing fields, file opening, UTF-8 decoding and newline
  translation. The model starts from the rows `csv.DictReader` yields, and
  from the decoded text of the message file.
- The kind of exception: any error other than a missing file is one case,
  "the reader raises at row k" or "the file is unreadable".
- `pywhatkit.sendwhatmsg_instantly`: the browser automation is an oracle
  that either returns or raises. Its `wait_time` and `tab_close`
  arguments are not modelled.
- The length of the pause (5 seconds): only whether it is taken is recorded.
- The path constants and the `__main__` guard (`app.py:35-36`,
  `app.py:102-103`): the files are parameters of `Run`.
- Dispatch.SendWhatsAppMessage: does not model the exceptions a log call
  could raise before the send. Only the sender's own failure is modelled.
