# django-celery-email: batching and message conversion, in Dafny

django-celery-email is a Django email backend that hands outgoing messages to
Celery workers instead of sending them on the request path. Messages cross the
task queue as plain dicts and are sent in batches. This project models the
helpers in `djcelery_email/utils.py` that do that shaping, and proves what they
promise:

- `chunked(iterator, chunksize)` splits a sequence into consecutive batches of
  `chunksize` items. It keeps a 1-based running index and an accumulator list,
  emits the accumulator whenever the index is a multiple of `chunksize`, and
  emits a non-empty remainder at the end. It is modelled as the method
  `Utils.Chunked`, proved equal to the function `Utils.ChunksOf`. The lemmas
  about `ChunksOf` state that the chunks partition the input in order, give
  each chunk's exact contents, and give the sizes and the count `ceil(N / k)`.
- `to_dict_list(messages)` accepts one message object or a list of them. It
  turns each message into a dict with eight keys. `extra_headers` is stored
  under `headers`, and `connection` is dropped. It is modelled as the method
  `Utils.ToDictList`, proved equal to `Utils.ToDictListSpec`.
- `from_dict_list(messages)` returns a list unchanged when its first element is
  already a message object. Otherwise it rebuilds one `EmailMessage(**m)` per
  dict. It is modelled as the function `Utils.FromDictList`. The lemma
  `Utils.ToDictListRoundTrip` shows what the two conversions together give
  back for the modelled message record: every field but the connection, with
  an empty sender replaced by the default one. Attributes outside that record
  are lost (see "## Left out").

Files:

- `wrappers.dfy`: module `Wrappers` with `Option` and `Result`. `Result` is
  how the model shows a Python call that raises.
- `mail.dfy`: module `Mail`. It holds the email message record, the kinds of
  value a message dict holds, the exceptions, and Django's
  `EmailMessage(**kwargs)` as an abstract constructor.
- `utils.dfy`: module `Utils`, the model of `djcelery_email/utils.py`.

Modelling choices:

- Python's `idx % chunksize == 0` only tests for zero. A negative chunk size
  therefore behaves like its absolute value. Only 0 raises (ZeroDivisionError
  at the first item; an empty input gives no chunks). So `Chunked` requires
  `chunksize != 0` and is specified with `Abs(chunksize)`. The `CHUNK_SIZE` setting defaults to 10
  (djcelery_email/conf.py:10) and is meant to be positive; the model follows
  the code.
- The docstring example shows tuples, but the code yields lists. The model
  yields sequences.
- A message object is recognised by having `from_email`. The model tags the
  two shapes: `Item = Obj(EmailMessage) | Dict(map<string, Value>)`.
- If `to_dict_list` gets a lone dict, Python iterates over the dict's keys.
  The keys are strings, and a string has no `subject`. So only an empty dict
  gets through (giving `[]`); any other raises AttributeError. In a list, any
  dict raises AttributeError.
- In `from_dict_list`, `EmailMessage(**m)` on an element that is an object
  raises TypeError. The comprehension stops at the first element that raises.
- The Django `DEFAULT_FROM_EMAIL` setting is passed in as the parameter
  `defaultFrom`. The constructor sets the sender to
  `from_email or DEFAULT_FROM_EMAIL`, so a missing or empty `from_email` gives
  the default sender.

## Model

| member | source | states |
|---|---|---|
| `Utils.Chunked` | djcelery_email/utils.py:4-18 | for any non-zero chunk size, returns exactly the chunks `ChunksOf(items, abs(chunksize))`: the accumulator is emitted when the 1-based index is a multiple of the size, and a non-empty remainder is emitted at the end |
| `Utils.FlattenChunksOf` | djcelery_email/utils.py:11-18 | concatenating all chunks gives back the input sequence exactly, in order |
| `Utils.ChunkSizes` | djcelery_email/utils.py:12-18 | no chunk is empty, no chunk holds more than k items, and every chunk but the last holds exactly k |
| `Utils.ChunkAt` | djcelery_email/utils.py:12-16 | chunk j holds input positions j*k up to (j+1)*k, cut at the end of the input; so every chunk but the last ends at a 1-based index that is a multiple of k |
| `Utils.ChunkCount` | djcelery_email/utils.py:11-18 | N items give ceil(N / k) chunks, and an empty input gives none |
| `Utils.LastChunkSize` | djcelery_email/utils.py:17-18 | for a non-empty input, the last chunk holds N mod k items, or k when k divides N |
| `Utils.DocstringExample` | djcelery_email/utils.py:8-9 | [1, 2, 3, 4, 5] in chunks of 2 gives [1, 2], [3, 4], [5] |
| `Utils.ElevenInFours` | tests/tests.py:281-305 | any 11 items in chunks of 4 give three chunks, of sizes 4, 4 and 3 |
| `Utils.MessageToDict` | djcelery_email/utils.py:29-38 | the dict built for one message has exactly the keys subject, body, from_email, to, bcc, attachments, headers and cc |
| `Utils.ToDictList` | djcelery_email/utils.py:21-41 | returns exactly `ToDictListSpec(messages)`: a lone object becomes a one-element list, each message in order gives its dict, and a non-message raises AttributeError; a lone empty dict gives [] |
| `Utils.ToDictListSingle` | djcelery_email/utils.py:23-25 | a lone message object gives the same result as the one-element list holding it |
| `Utils.ToDictListShape` | djcelery_email/utils.py:27-39 | a list converts exactly when every element is a message object; then there is one dict per message, in order, with the eight keys; each value equals the attribute of the same name, `headers` equals `extra_headers`, and there is no `connection` |
| `Mail.NewEmailMessage` | djcelery_email/utils.py:49 | `EmailMessage(**m)` succeeds exactly when every key names a constructor parameter and holds a value of its kind; `headers` becomes `extra_headers`; a missing or empty `from_email` gives the default sender |
| `Utils.RebuildAll` | djcelery_email/utils.py:49 | built on `Utils.Rebuild`, which models one `EmailMessage(**m)`, including the TypeError for `**` on an object; the comprehension succeeds exactly when every element rebuilds; then it gives one message object per element, same length and order |
| `Utils.FromDictList` | djcelery_email/utils.py:44-49 | a non-empty list whose first element is an object is returned unchanged; an empty list gives an empty list; otherwise the result, when there is one, rebuilds each dict in order, and it fails exactly when some element is not a well-formed dict |
| `Utils.FromDictListIdempotent` | djcelery_email/utils.py:45-49 | applying `from_dict_list` to its own successful result changes nothing |
| `Utils.MessageRoundTrip` | djcelery_email/utils.py:29-49 | rebuilding the dict of a message gives back every field of the modelled record except the connection; an empty sender comes back as the default sender, and a non-empty one unchanged |
| `Utils.ToDictListRoundTrip` | djcelery_email/utils.py:21-49 | `from_dict_list(to_dict_list(ms))` gives back the messages, in order; each keeps every field of the modelled record except the connection, and an empty sender becomes the default sender |

## Left out

- `Utils.Chunked` returns the whole list of chunks. The source is a lazy, single-pass generator, so consuming only some chunks, or an infinite iterator, is not modelled.
- `Utils.Chunked` requires a non-zero integer chunk size. With a chunk size of 0 the source raises ZeroDivisionError at the first item, and an empty input gives no chunks; the model excludes size 0 altogether. Non-integer chunk sizes are not modelled.
- Aliasing is not modelled. `to_dict_list` puts the message's own `to`, `bcc`, `cc`, `attachments` and `extra_headers` objects into the dict, and the model copies them as values.
- Duck typing is not modelled. An argument is either an email message object or a dict. Objects that merely have the same attribute names are not covered.
- `Mail.NewEmailMessage` is an abstract stand-in for Django's constructor, whose code is not part of this model. Apart from the sender fallback `from_email or DEFAULT_FROM_EMAIL`, the model stores every value as given, as Django 1.8 does. Later releases normalise some values, for example by guessing a missing attachment mimetype; that is not modelled. Where Django would store a value of an unexpected kind, or raise a different error, the model raises TypeError.
- `Mail.NewEmailMessage` leaves out the `reply_to` parameter, which Django has had since version 1.8. The model's message record has no `reply_to`, and `to_dict_list` does not copy one either.
- `Utils.MessageRoundTrip` holds only for the modelled nine-field record. A Django message has more attributes, such as `content_subtype`, `mixed_subtype` and `encoding`, and an `EmailMultiAlternatives` also has `alternatives` and its own class. `to_dict_list` copies none of these, so `from_dict_list` gives back a plain `EmailMessage` without them. The lemma also assumes that the constructor stores the address lists and attachments as given, as Django 1.8 does (`attachments or []`). Django releases whose constructor passes each attachment triple through `attach()` fill in a missing mimetype, and this is not modelled.
- `Utils.ToDictListRoundTrip` holds only for the modelled nine-field record, for the same reason. `content_subtype`, `mixed_subtype`, `encoding`, `reply_to`, `alternatives` and the message class are lost by the two conversions. It also assumes, like `Utils.MessageRoundTrip`, that the constructor stores the address lists and attachments as given. A Django release that guesses a missing attachment mimetype in the constructor would give back a different triple.
- djcelery_email/tasks.py and djcelery_email/backends.py are not part of this model. They are Celery task and Django backend glue: the connection lookup, the send call, logging, retries and enqueueing.
- djcelery_email/conf.py, the package metadata, setup.py and the test-runner files are configuration and packaging, so they are not modelled.
- The tests call `email_to_dict`, `dict_to_email`, `send_email` and `send_emails`, which are not defined in the sources modelled here. They are not part of this model.
