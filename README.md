# CV anonymiser: the request handler, in Dafny

This project models the request path of the CV anonymiser's Lambda function,
`lambda/app.py`. The function serves two routes. `GET /health` answers
`{"ok": true}`. `POST /anonymise` does the following, in order:

1. It reads `text` from the JSON payload. A missing payload counts as `{}`.
2. It rejects a `text` that is missing, not a string, or blank after
   `strip()`. The rejection reply is the pair
   `({"error": "Missing 'text' field"}, 400)`.
3. It fetches the redaction-rules document from SSM.
4. It takes the salt from the document, or `"demo-salt"` when there is none.
5. It redacts the text by replacing every `@` with `[at]`.
6. It computes the SHA-256 hex digest of the UTF-8 bytes of `salt + text`.
7. It writes one audit item to DynamoDB: the request id, the creation time,
   an expiry one week later, the digest and the document's `redact` list.
8. It replies with the request id and the redacted text.

Modules:

- `Json` (json.dfy): parsed JSON values.
- `PyStr` (pystr.dfy): Python's `str.isspace`, `str.strip` and `str.replace`.
- `Utf8` (utf8.dfy): `str.encode("utf-8")`, with a strict decoder. The model
  proves the encoding is a bijection onto well-formed UTF-8.
- `Hex` (hex.dfy): `hexdigest()`, with a decoder.
- `App` (app.dfy): the handler's steps as functions, and the whole call as
  the function `AnonymiseEffects`. The class `Service` holds the
  configuration, the log of SSM fetches and the audit table.
  `Service.Anonymise` updates both, as `AnonymiseEffects` prescribes.

Inputs that stand in for I/O:

- the rules document is the value `json.loads` would return;
- the request id stands for `str(uuid.uuid4())`;
- `now` stands for `int(time.time())`;
- SHA-256 is a function value given to the `Service` constructor.

The rest of the repository suggests more than `lambda/app.py` does. The
seed rules document in `cv_anonymiser/cv_anonymiser_stack.py` names `email`
and `phone` rules, and `lambda/tests/test_basic.py` calls an
`_apply_redaction` helper that returns per-rule counts. The handler has no
such rules and no such helper: it only replaces `@`, lets every failure
propagate, and returns a `(body, 400)` tuple. The model follows the handler.

## Model

| member | source | states |
|---|---|---|
| App.Health | lambda/app.py:21-23 | the health reply is the object whose only key is `ok`, bound to `true` |
| App.AcceptedText | lambda/app.py:28-30 | an accepted text is exactly the string stored under `text` in the payload (or in `{}` when there is no payload) |
| App.AcceptedTextIff | lambda/app.py:28-30 | validation accepts exactly the payloads whose `text` is a string with a non-whitespace character, and passes that string on unchanged |
| PyStr.Strip | lambda/app.py:29 | `strip()` gives the empty string exactly when every character is Python whitespace; otherwise the result starts and ends with a non-whitespace character |
| App.ExampleBlankText | lambda/app.py:28-30 | `{"text": "   "}` gets the missing-text reply |
| App.RejectionIff | lambda/app.py:28-33 | the reply is the missing-text pair exactly when the payload has no usable text; the rules are fetched exactly when it has one; a rejected call writes nothing |
| App.RaisedIff | lambda/app.py:33-42 | an exception escapes exactly when the text is accepted and either the rules document is not an object (AttributeError) or its `salt` is not a string (TypeError) |
| App.WrittenIffReturned | lambda/app.py:33-60 | an audit item is written exactly when the handler returns normally |
| App.DefaultRules | lambda/app.py:35-53 | with an empty rules object the text is hashed under `demo-salt` and the item records `[]` as the applied rules |
| App.RedactIsExpandEach | lambda/app.py:38 | Python's left-to-right `replace("@", "[at]")` equals expanding each character on its own |
| App.RedactNoAt | lambda/app.py:38 | the redacted text holds no `@` |
| App.RedactLength | lambda/app.py:38 | the redacted text is 3 characters longer per `@` of the input |
| App.RedactUnchangedIff | lambda/app.py:38 | redaction leaves a text unchanged if and only if it holds no `@` |
| App.RedactIdempotent | lambda/app.py:38 | redacting the redacted text changes nothing |
| App.RedactConcat | lambda/app.py:38 | redacting a concatenation is concatenating the redacted parts |
| App.RedactPlacement | lambda/app.py:38 | input character i appears, expanded, at offset i + 3 × (number of `@` before it); other characters keep their order |
| App.RedactNotInjective | lambda/app.py:38 | `@` and a literal `[at]` redact to the same text |
| App.ExampleRedaction | lambda/app.py:38 | `a@b.io` redacts to `a[at]b.io` |
| App.HashInputSplit | lambda/app.py:42 | the hashed bytes are the salt's UTF-8 encoding followed by the original text's |
| App.HashInputBindsText | lambda/app.py:42 | under one salt, different texts give different hashed bytes |
| App.HashInputBindsSalt | lambda/app.py:42 | for one text, different salts give different hashed bytes |
| App.HashInputAmbiguous | lambda/app.py:42 | the bare prefix construction does not separate salt from text: ("a", "bc") and ("ab", "c") hash the same bytes |
| App.CvHashShape | lambda/app.py:42 | a 32-byte digest renders as 64 lower-case hex digits from which the digest reads back |
| Utf8.EncodeChar | lambda/app.py:42 | one character encodes to 1 to 4 bytes: a lead byte announcing the length, then continuation bytes |
| Utf8.DecodeEncode | lambda/app.py:42 | decoding the UTF-8 encoding of a string gives the string back |
| Utf8.EncodeDecode | lambda/app.py:42 | every byte sequence the strict decoder accepts is the encoding of what it decodes to |
| Utf8.EncodeConcat | lambda/app.py:42 | the encoding of a concatenation is the concatenation of the encodings |
| Utf8.EncodeInjective | lambda/app.py:42 | different strings have different encodings |
| Hex.Encode | lambda/app.py:42 | the hex digest has two digits per byte, all from `0123456789abcdef` |
| Hex.DecodeEncode | lambda/app.py:42 | the hex digest determines the digest |
| App.ExpiresAt | lambda/app.py:44-45 | the expiry is later than the creation time by exactly 604800 seconds |
| App.AuditItem | lambda/app.py:47-55 | the audit item has exactly the keys `requestId`, `createdAt`, `ttl`, `cvHash` and `rulesApplied` |
| App.ItemDependsOnlyOnDigest | lambda/app.py:42-55 | the audit item depends on the text only through the digest: texts whose salted inputs hash alike leave identical items |
| App.SuccessContract | lambda/app.py:35-60 | a normal reply has exactly the keys `requestId` and `anonymisedText`; the id is the audit item's; the text is the redacted original without `@`; the item holds the salted hash of the original text, `createdAt = now`, `ttl = now + 604800` and the document's `redact` entry, or `[]` |
| App.Service.constructor | lambda/app.py:12-18 | the service starts with the configured parameter and table names, the existing table and an empty fetch log |
| App.Service.Anonymise | lambda/app.py:26-60 | the reply is the one `AnonymiseEffects` prescribes; the call appends the rules parameter name to the fetch log exactly when it fetches; it puts the item under its `requestId`, replacing any item already there, exactly when one is written |

## Left out

- `cv_anonymiser/cv_anonymiser_stack.py` and the top-level `app.py` are AWS
  CDK provisioning and the CDK entry point. They have no request-time
  behaviour.
- FastAPI and Mangum are not modelled: routing, request-body parsing and
  the serialisation of the reply. The `(body, 400)` tuple is kept as the
  handler returns it. The model does not claim it becomes an HTTP 400.
- Failures of the SSM call, of `json.loads` and of `put_item` are not
  modelled. The model treats the fetched document as given and the write
  as always succeeding. In the source each of these raises out of the
  handler.
- JSON numbers are integers only. Floats are not distinguished: the
  handler only asks whether `text` and `salt` are strings. `put_item`
  rejects a float in `rulesApplied`; that rejection is not modelled.
- Dafny characters are Unicode scalar values, so a string holding a lone
  surrogate cannot be expressed. For such a string `encode("utf-8")` would
  raise UnicodeEncodeError, and the model does not cover that case.
- SHA-256 is a function parameter. Its block computation is not modelled,
  and neither is collision resistance.
- The request id is a parameter. The format and uniqueness of `uuid4` are
  not modelled.
- The clock is a parameter. `int()` truncates a non-negative time toward
  zero, so `now` is a `nat`.
- DynamoDB's TTL expiry and concurrent invocations are not part of this
  model.
- `lambda/app.py` has no regex e-mail or phone rules, no rules cache or
  fallback document, no rule-count maps and no log sanitising, so none of
  these is modelled. `lambda/tests/test_basic.py:32` calls `app._apply_redaction`,
  which `lambda/app.py` does not define.
