# Upload validation of the deepfake-detection backend

The backend (a Flask app in `app.py`) has three endpoints: `/api/analyze/image`,
`/api/analyze/video` and `/api/analyze/audio`. Each one accepts a multipart upload
in the field `file`. Before an upload is saved and handed to the media-processing
code, the handler runs three checks and returns early with HTTP 400 if one fails:

1. there is no `file` part: `"No file part"`;
2. the filename is empty: `"No selected file"`;
3. `allowed_file(filename, kind)` is false: `"Invalid file type"`.

`allowed_file` accepts a name that contains a `.` when the text after the last
`.`, lower-cased, is in that media kind's allow-list. The allow-lists are
png/jpg/jpeg for images, mp4/avi/mov for video and mp3/wav/ogg for audio.

The model has two modules:

- `PyStr` (`PyStr.dfy`) models the Python string operations the check uses:
  `sep in s`, `s.rsplit(sep, 1)` as `RSplitOnce` (a one- or two-element list,
  like Python's) and `s.lower()` as `Lower`.
- `App` (`App.dfy`) models the media kinds, `ALLOWED_EXTENSIONS`, `allowed_file`
  as `AllowedFile`, and the handlers' checks as `Validate`. `Validate` returns
  either `Rejected(400, message)` or `Proceed(kind, filename)`.

The proofs check `allowed_file` against `HasAllowedExtension`, a separate
definition that does not use `rsplit`: some `.` has no `.` after it, and the
lower-cased text after it is listed. The two agree on every input, and a request
goes on to processing exactly when its filename meets that definition.

The proofs also establish the following:

- Only the last extension counts. This comes from the uniqueness of the
  `rsplit` split.
- Case does not matter.
- A trailing dot is rejected and an empty stem is accepted.
- The allow-lists are disjoint, which is a fact about the constants.
- The errors come in a fixed order.
- The three endpoints differ only in the kind they check.

The code does not check the uploaded content's size or emptiness. It rejects an
empty filename (app.py:45-46), and Flask enforces the 16 MiB limit (app.py:22).

## Model

| member | source | states |
|---|---|---|
| PyStr.RSplitOnce | app.py:29 | `rsplit('.', 1)` gives one part (the whole name) exactly when there is no `.`; otherwise it gives two parts. Joining them with the separator gives back the input, and the second part contains no separator. |
| PyStr.RSplitOnceAt | app.py:29 | The split is unique: for any `p` and any `e` with no separator, `(p + "." + e).rsplit('.', 1) == [p, e]`, even when `p` contains dots. |
| PyStr.Lower | app.py:29 | `lower()` keeps the length, leaves no upper-case ASCII letter, maps each upper-case letter to its lower-case partner and leaves every other character where it was. |
| PyStr.LowerIdempotent | app.py:29 | Lower-casing twice is the same as lower-casing once. |
| PyStr.LowerKeepsSeparator | app.py:28-29 | Lower-casing neither creates nor removes a `.` at any position, so `'.' in name` is unchanged by case. |
| App.AllowedFile | app.py:27-29 | A name is accepted only if it contains a `.`. |
| App.AllowedExtensions | app.py:16-20 | `ALLOWED_EXTENSIONS` lists three extensions per kind, each non-empty, with no dot and already lower-case. |
| App.AllowListsDisjoint | app.py:16-20 | The image, video and audio lists share no extension. |
| App.AllowedFileMeansAllowedExtension | app.py:27-29 | `allowed_file` holds iff some `.` in the name has no later `.` and the lower-cased text after it is in the kind's list. Both directions are proved. |
| App.AllowedFileHasAllowedExtension | app.py:27-29 | If `allowed_file` accepts a name, the dot that `rsplit` picks is the witness for the rsplit-free description. |
| App.ExtensionAfterLastDotAllowed | app.py:27-29 | If the name has a `.` at position `i` with no later `.`, and the lower-cased text after it is listed, `allowed_file` accepts the name. |
| App.OnlyLastExtensionMatters | app.py:29 | For an extension `e` with no dot, `stem + "." + e` is accepted iff `lower(e)` is listed. The stem does not matter, including any dots in it. |
| App.ListedExtensionAccepted | app.py:16-29 | Every listed extension is accepted after any stem, including the empty one. |
| App.TrailingDotRejected | app.py:16-29 | A name that ends in `.` is rejected for every kind. |
| App.LowersToSameVerdict | app.py:29 | Every name gets the same verdict as its lower-cased form. |
| App.CaseInsensitive | app.py:29 | Two names that lower-case to the same text get the same verdict, so `A.PNG` is judged like `a.png`. |
| App.AcceptedForAtMostOneKind | app.py:16-29 | No name is accepted for two different media kinds. |
| App.Validate | app.py:41-49 | Every rejection has status 400. A request goes on to processing only if it has a file part, and it goes on with that part's filename and the endpoint's kind. |
| App.ProceedsIffAllowedExtension | app.py:41-49 | A request passes all three checks iff it has a file part whose name has an allowed last extension. |
| App.MissingPartReportedFirst | app.py:41-42 | A missing `file` part gives `400 "No file part"` for every kind, before anything else is looked at. |
| App.InvalidTypeOnlyForNamedFiles | app.py:45-49 | An empty filename gives `"No selected file"`. `"Invalid file type"` is given exactly to non-empty names that `allowed_file` rejects, and never for `''`. |
| App.EndpointsDifferOnlyInKind | app.py:41-99 | When two endpoints answer the same request differently, the request has a non-empty filename and at least one of them rejects it as an invalid type. All other outcomes are the same. |
| App.GifImageRejected | app.py:48-49 | `photo.gif` sent to the image endpoint gets `400 "Invalid file type"`. |
| App.DoubleExtensionJudgedOnLast | app.py:73-74 | `clip.tar.mp4` sent to the video endpoint is judged on `mp4` and goes on to processing. |
| App.UpperCaseExtensionAccepted | app.py:48-49 | `A.PNG` sent to the image endpoint goes on to processing. |
| App.BareExtensionAccepted | app.py:48-49 | `.png`, which has an empty stem, sent to the image endpoint goes on to processing. |
| App.TrailingOrMissingDotRejected | app.py:48-49 | `photo.` and `png` sent to the image endpoint get `400 "Invalid file type"`. |

## Left out

- PyStr.Lower models `str.lower()` on ASCII only; Python lower-cases all of Unicode. This does not change any verdict. `rsplit` runs before `lower`, so the split is the same. The only non-ASCII character whose Python lower-case form is plain ASCII is U+212A KELVIN SIGN, which becomes `k`, and `k` is in no allow-list. Every other non-ASCII character keeps the extension out of the lists in both Python and the model.
- Flask routing, CORS, template pages (`/` and `/about.html`) and `app.run` are web-framework glue. The three handlers are modelled only through the kind each one passes to `allowed_file`.
- The filename of a `file` part is modelled as a string. Werkzeug can report a part with no filename (`None`), which in the source would raise outside the `try` block. That case is not modelled.
- When a request has more than one `file` part, `request.files['file']` takes the first one. The model takes that part as given.
- `secure_filename` is a Werkzeug call and is not part of this model. Saving, joining paths, deleting uploads and creating the uploads directory are file-system I/O and are left out.
- `process_image`, `process_video` and `process_audio` are left out. They decode media through OpenCV, librosa and NumPy on floating-point data, which includes the frame-reading loop. They then return constant, hard-coded verdicts.
- How exceptions become responses is left out. A handler turns an exception into a 500 response. A `process_*` function instead returns its own `{'error': ...}` dictionary, which the handler sends with status 200. Both paths depend on exceptions raised by foreign calls.
- The 16 MiB `MAX_CONTENT_LENGTH` limit is enforced by Flask, not by this code.
- `ALLOWED_EXTENSIONS[file_type]` is indexed with a string in the source. Its key is modelled as the `Kind` datatype because the handlers only ever pass `'image'`, `'video'` or `'audio'`. An unknown key, which would raise `KeyError`, cannot occur.
