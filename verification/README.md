# MonishAI upload handler, modelled in Dafny

MonishAI is a small FastAPI service. A client posts a JPEG photo to
`POST /upload`. The service checks the file, sends its base64 text to a
language-model chat API with a prompt asking for one question and its answer
about the image, cuts the reply into a question and an answer, stores the pair
in SQLite and returns it.

This project models the decision logic of that handler (`upload_image` in
`main.py`) as pure functions, and proves properties of them:

- `Upload.Validate` — the chain of checks on the upload and the API key, in the
  source's order, with the source's status codes and detail texts;
- `Base64.Encode` — the standard base64 encoding (section 4 of RFC 4648) that
  turns the bytes into the text sent on, with a decoder `Base64.Decode` as its
  partner;
- `Response.ContentOf` — the lookup of `choices[0].message.content` in the
  decoded JSON reply, with the defaults of Python's `dict.get` and the
  exceptions Python raises on a body of another shape;
- `Response.ParseQnA` — the split of that content at `"Answer: "` into a
  question and an answer;
- `Upload.UploadImage` — the whole handler, with the API call and the database
  insert taken as given outcomes.

The Python string operations the parse relies on (`startswith`, `split` with a
non-empty separator, `replace`, `strip`) are defined in `PyStr` and proved
against independent characterisations: the pieces of a split join back to the
string and hold no separator, a replace is a split joined with the
replacement, and a strip is the one slice with only white space outside it.

The files are `wrappers.dfy` (Option and Result), `pystr.dfy`, `base64.dfy`,
`response.dfy` and `upload.dfy`, one module each.

Where the behaviour of `main.py` differs from how the service is meant to
behave, the model follows `main.py`:

- An oversized file is not answered with 400. The "too large" `HTTPException`
  is raised inside the `try` that wraps the read, so the `except Exception`
  there catches it. The client then gets 500 with the detail
  `"Error reading file: 400: Image too large (max 5MB)"`, because an
  `HTTPException` prints as "status: detail".
- The reply is parsed only by the single split at lines 129-131. There is no
  further normalisation of the model's text.

## Model

| member | source | states |
|---|---|---|
| `PyStr.StartsWith` | main.py:68 | no contract of its own; it is the `startswith` of the content-type check at line 68 and the "/9j/" check at line 82, and `Base64.JpegPrefixIff` and `Upload.ValidateAcceptsIff` say what those checks accept |
| `PyStr.Find` | main.py:129 | a result `i` is an occurrence of the separator with no occurrence before it; None means there is no occurrence at any index |
| `PyStr.FindNoneIff` | main.py:129 | the search fails exactly when the separator does not occur |
| `PyStr.Split` | main.py:129 | `str.split(sep)` always yields at least one piece |
| `PyStr.SplitJoin` | main.py:129 | joining the pieces of a split with the separator gives back the original string |
| `PyStr.SplitPiecesAvoid` | main.py:129 | no piece of a split contains the separator |
| `PyStr.SplitMany` | main.py:129-131 | a split has more than one piece exactly when the separator occurs, which is the `len(parts) > 1` test |
| `PyStr.FirstTwoPieces` | main.py:129-131 | the first piece ends at the first occurrence; the second is the text between the first occurrence and the next one, or the end of the string |
| `PyStr.Replace` | main.py:130 | no contract of its own; `PyStr.ReplaceIsSplitJoin` and `PyStr.ReplaceAbsent` describe it |
| `PyStr.ReplaceIsSplitJoin` | main.py:130 | replacing every occurrence in one left-to-right pass equals splitting on the pattern and joining with the replacement |
| `PyStr.ReplaceAbsent` | main.py:130 | a pattern that does not occur leaves the string unchanged |
| `PyStr.TrimStart` | main.py:130-131 | the result is a suffix; everything cut off is white space; the result does not begin with white space |
| `PyStr.TrimEnd` | main.py:130-131 | the result is a prefix; everything cut off is white space; the result does not end with white space |
| `PyStr.Strip` | main.py:130-131 | the stripped text neither begins nor ends with white space |
| `PyStr.StripUnique` | main.py:130-131 | `strip()` is the one slice that has only white space outside it and does not begin or end with white space |
| `PyStr.StripIdempotent` | main.py:130-131 | stripping twice is the same as stripping once |
| `PyStr.StripAvoids` | main.py:131 | stripping a text without the separator cannot create one |
| `Base64.Encode` | main.py:81 | the encoding of n bytes has 4·⌈n/3⌉ characters, each from the 64-character alphabet or the pad `=` |
| `Base64.ValueOf` | main.py:81 | a character has an alphabet index exactly when it is one of the 64 alphabet characters |
| `Base64.ValueOfCharOf` | main.py:81 | looking up the character of an index gives back that index |
| `Base64.DecodeEncode` | main.py:81 | decoding the encoding of any bytes gives back those bytes, so the text sent on loses nothing |
| `Base64.JpegPrefixIff` | main.py:81-83 | the base64 text starts with "/9j/" exactly when the bytes are at least three long and start FF D8 FF |
| `Response.First` | main.py:128 | indexing `[0]` succeeds exactly on a non-empty list or string, giving the first element or the one-character string; an empty list or string raises IndexError, a dict KeyError, a scalar TypeError |
| `Response.ContentOf` | main.py:128 | no contract of its own; `Response.ContentOfSucceedsIff`, `Response.ContentOfValue` and `Response.EmptyChoicesRaise` describe it |
| `Response.ContentOfSucceedsIff` | main.py:128 | extracting the content raises nothing exactly when the body is an object, `choices` is absent or a non-empty list whose first element is an object, `message` in it is absent or an object, and `content` in that is absent or a string |
| `Response.ContentOfValue` | main.py:128 | for such a body the content is the `content` string, or "No response from API" when any key on the path is missing |
| `Response.EmptyChoicesRaise` | main.py:128 | an empty `choices` list raises IndexError, whatever else the body holds |
| `Response.ParseQnA` | main.py:129-131 | no contract of its own; `Response.ParseWithoutMark`, `Response.ParseWithMark` and `Response.ParsedWithMarkIsClean` describe it |
| `Response.ParseWithoutMark` | main.py:129-131 | content without "Answer: " gives the question "What is in the image?" and the content itself, unstripped, as the answer |
| `Response.ParseWithMark` | main.py:129-131 | with "Answer: " present, the answer is the stripped text between its first occurrence and the next one (or the end), and the question is the text before the first occurrence, with every "Question: " removed, stripped |
| `Response.ParsedWithMarkIsClean` | main.py:129-131 | with "Answer: " present, the answer contains no "Answer: ", and neither field begins or ends with white space |
| `Response.ParseNoResponse` | main.py:128-131 | the default content "No response from API" is returned as the answer to the default question |
| `Response.MissingKeysGiveDefault` | main.py:128-131 | a well-shaped body that is missing `choices`, `message` or `content` yields the default question and "No response from API" as the answer |
| `Response.ParseProseExample` | main.py:129-131 | "Question: What color? Answer: Blue" gives the question "What color?" and the answer "Blue" |
| `Upload.Validate` | main.py:64-88 | no contract of its own; `Upload.ChecksInOrder`, `Upload.ValidateAcceptsIff`, `Upload.KeyCheckedLast` and `Upload.ValidateFailureStatus` describe it |
| `Upload.ChecksInOrder` | main.py:64-78 | a missing file is a 400 "No file uploaded"; a type that does not start "image/jpeg" is a 400 whatever the body; a declared JPEG over 5 MiB is a 500 "Error reading file: 400: Image too large (max 5MB)" |
| `Upload.ValidateAcceptsIff` | main.py:64-88 | validation passes exactly for a declared-JPEG file that was read, is at most 5 MiB and starts FF D8 FF, with a non-empty key; what it passes on is the base64 of the bytes and decodes back to them |
| `Upload.ExactLimitAccepted` | main.py:74 | a JPEG of exactly 5 MiB passes the size check, since the limit is exclusive |
| `Upload.KeyCheckedLast` | main.py:85-88 | an acceptable file fails only on a missing or empty key, with a 500; an unacceptable file fails the same way whatever the key |
| `Upload.UploadImage` | main.py:64-145 | no contract of its own; `Upload.RejectedBeforeApi`, `Upload.AnsweredUpload`, `Upload.StoreDecides` and `Upload.FailureStatus` describe it |
| `Upload.RejectedBeforeApi` | main.py:64-125 | a rejected upload is answered with the validation failure; the API and the database are not consulted |
| `Upload.AnsweredUpload` | main.py:122-145 | an answered upload was acceptable with a configured key; the API got the file's base64 text and replied with a content string; the pair returned is the parse of that content, and the same pair was inserted |
| `Upload.ValidateFailureStatus` | main.py:64-88 | a validation failure is a 400 or a 500, and a 400 exactly when the file is missing, is not declared JPEG, or is a readable file of at most 5 MiB whose bytes do not start FF D8 FF |
| `Upload.StoreDecides` | main.py:133-145 | after the parse, the insert decides the outcome: the pair when stored; a 500 "Database error: " with the error text when the insert on an open connection failed; an uncaught UnboundLocalError, a 500 with no detail, when `sqlite3.connect` failed, because the `finally` closes a connection that was never bound |
| `Upload.FailureStatus` | main.py:64-143 | every failure is a 400 or a 500, and a 400 exactly when the file is missing, is not declared JPEG, or is a readable file of at most 5 MiB whose bytes do not start FF D8 FF |

## Left out

- Routing, CORS, static files and server start-up are framework wiring, not handler logic.
- `File(...)` makes the file part required, so the framework answers a request without one with 422 before the handler runs. The model keeps the handler's own `if not file` check as an absent file.
- The model has no request parsing: a part without a content type is modelled as `None`, and reading `.content_type.startswith` on it raises AttributeError, answered 500.
- `await file.read()` is I/O. Its outcome is an input: either the bytes, or the text of the exception it raised.
- `os.getenv("PPLX_API_KEY")` reads the environment. The key is an input.
- The API call is network I/O: the aiohttp POST with its prompt, model name, headers, `max_tokens` and 10-second timeout, and the tenacity retry of 3 attempts 2 seconds apart. It is an input function from the base64 text to either a decoded JSON body or the text of the exception left after the retries.
- The non-ok branch at line 116 is inside that input.
- `response.json()` decoding is not modelled. The reply is given already decoded, with numbers, booleans and null all as one scalar.
- The SQLite connect, insert and commit (lines 134-143) are an input outcome: stored, failed on the open connection with the error text, or failed in `sqlite3.connect` itself.
- The database start-up, the `GET /answers` and `GET /health` endpoints and the uploads directory are outside the upload handler.
- Logging is a side effect with no bearing on the result.
- `.decode("utf-8")` on the base64 bytes is the identity on ASCII, so `Base64.Encode` returns the text directly.
- `PyStr.Split`: the empty separator is excluded by a precondition. The source only splits on non-empty literals, and Python raises ValueError for an empty one.
- `PyStr.Replace`: the empty pattern is excluded by a precondition for the same reason. For an empty pattern Python inserts the replacement before every character and at the end, so `"abc".replace("", "-")` is `"-a-b-c-"`.
- `PyStr.IsSpace` covers the characters Python's `str.isspace` accepts. It does not consult a Unicode database.
- `Base64.Decode` exists only as the partner of the encoder for the round trip. It does not model `base64.b64decode`: it does not check that the unused low bits are zero, and it accepts no white space.
