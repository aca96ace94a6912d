/**
 The upload checks of the Flask backend in app.py: the per-kind extension
 allow-lists, `allowed_file`, and the three checks that each of
 `/api/analyze/image`, `/api/analyze/video` and `/api/analyze/audio` makes,
 returning early, before the upload is saved and processed.
 */
module App {
  import opened PyStr

  /** The media kinds, i.e. the keys of ALLOWED_EXTENSIONS. */
  datatype Kind = Image | Video | Audio

  /**
   ALLOWED_EXTENSIONS[kind]: three extensions per kind, each non-empty,
   without a dot and already lower-case.
   */
  function AllowedExtensions(kind: Kind): (exts: set<string>)
    ensures |exts| == 3
    ensures forall ext :: ext in exts ==> ext != [] && '.' !in ext && Lower(ext) == ext
  {
    match kind
    case Image => {"png", "jpg", "jpeg"}
    case Video => {"mp4", "avi", "mov"}
    case Audio => {"mp3", "wav", "ogg"}
  }

  /**
   `allowed_file(filename, kind)`: the name holds a `.`, and the text after its
   last `.`, lower-cased, is in the allow-list of `kind`.
   */
  function AllowedFile(filename: string, kind: Kind): (ok: bool)
    ensures ok ==> '.' in filename
  {
    '.' in filename && Lower(RSplitOnce(filename, '.')[1]) in AllowedExtensions(kind)
  }

  /**
   The same acceptance rule stated without `rsplit`: some `.` in the name has
   no `.` after it, and the lower-cased text after it is in the allow-list.
   */
  ghost predicate HasAllowedExtension(filename: string, kind: Kind) {
    exists i :: 0 <= i < |filename| && filename[i] == '.' && '.' !in filename[i + 1..]
                && Lower(filename[i + 1..]) in AllowedExtensions(kind)
  }

  /** No extension is listed for two kinds. */
  lemma AllowListsDisjoint()
    ensures AllowedExtensions(Image) !! AllowedExtensions(Video)
    ensures AllowedExtensions(Image) !! AllowedExtensions(Audio)
    ensures AllowedExtensions(Video) !! AllowedExtensions(Audio)
  {
  }

  /** `allowed_file` agrees with the rsplit-free description, in both directions. */
  lemma AllowedFileMeansAllowedExtension(filename: string, kind: Kind)
    ensures AllowedFile(filename, kind) <==> HasAllowedExtension(filename, kind)
  {
    if AllowedFile(filename, kind) {
      AllowedFileHasAllowedExtension(filename, kind);
    }
    if HasAllowedExtension(filename, kind) {
      var i :| 0 <= i < |filename| && filename[i] == '.' && '.' !in filename[i + 1..]
               && Lower(filename[i + 1..]) in AllowedExtensions(kind);
      ExtensionAfterLastDotAllowed(filename, i, kind);
    }
  }

  /** The `.` that rsplit picks witnesses the rsplit-free description. */
  lemma AllowedFileHasAllowedExtension(filename: string, kind: Kind)
    requires AllowedFile(filename, kind)
    ensures HasAllowedExtension(filename, kind)
  {
    var parts := RSplitOnce(filename, '.');
    var i := |parts[0]|;
    assert filename[i] == '.' && filename[i + 1..] == parts[1];
  }

  /** A last `.` whose extension is listed makes `allowed_file` accept. */
  lemma ExtensionAfterLastDotAllowed(filename: string, i: nat, kind: Kind)
    requires i < |filename| && filename[i] == '.' && '.' !in filename[i + 1..]
    requires Lower(filename[i + 1..]) in AllowedExtensions(kind)
    ensures AllowedFile(filename, kind)
  {
    assert filename == filename[..i] + ['.'] + filename[i + 1..];
    OnlyLastExtensionMatters(filename[..i], filename[i + 1..], kind);
  }

  /**
   Only the text after the last `.` is judged: whatever the stem `stem` holds
   (more dots included, or nothing at all), `stem.ext` is accepted iff the
   lower-cased `ext` is listed.
   */
  lemma OnlyLastExtensionMatters(stem: string, ext: string, kind: Kind)
    requires '.' !in ext
    ensures AllowedFile(stem + ['.'] + ext, kind) <==> Lower(ext) in AllowedExtensions(kind)
  {
    RSplitOnceAt(stem, ext, '.');
  }

  /** Every listed extension is accepted after any stem. */
  lemma ListedExtensionAccepted(stem: string, ext: string, kind: Kind)
    requires ext in AllowedExtensions(kind)
    ensures AllowedFile(stem + ['.'] + ext, kind)
  {
    OnlyLastExtensionMatters(stem, ext, kind);
  }

  /** A name ending in `.` has the empty extension, which no list holds. */
  lemma TrailingDotRejected(stem: string, kind: Kind)
    ensures !AllowedFile(stem + ['.'], kind)
  {
    assert stem + ['.'] == stem + ['.'] + [];
    OnlyLastExtensionMatters(stem, [], kind);
  }

  /** Two names that lower-case to the same text are judged alike. */
  lemma CaseInsensitive(f: string, g: string, kind: Kind)
    requires Lower(f) == Lower(g)
    ensures AllowedFile(f, kind) == AllowedFile(g, kind)
  {
    LowersToSameVerdict(f, kind);
    LowersToSameVerdict(g, kind);
  }

  /** A name and its lower-cased form get the same verdict. */
  lemma LowersToSameVerdict(f: string, kind: Kind)
    ensures AllowedFile(Lower(f), kind) == AllowedFile(f, kind)
  {
    LowerKeepsSeparator(f, '.');
    if '.' !in f {
      return;
    }
    var parts := RSplitOnce(f, '.');
    var stem, ext := parts[0], parts[1];
    LowerConcat(stem + ['.'], ext);
    LowerConcat(stem, ['.']);
    assert Lower(['.']) == ['.'];
    assert Lower(f) == Lower(stem) + ['.'] + Lower(ext);
    LowerKeepsSeparator(ext, '.');
    OnlyLastExtensionMatters(Lower(stem), Lower(ext), kind);
    LowerIdempotent(ext);
  }

  /** Because the lists are disjoint, a name is accepted for at most one kind. */
  lemma AcceptedForAtMostOneKind(filename: string, k1: Kind, k2: Kind)
    requires AllowedFile(filename, k1) && AllowedFile(filename, k2)
    ensures k1 == k2
  {
    AllowListsDisjoint();
  }

  /** What a handler sees of `request.files`: no `file` part, or one with its filename. */
  datatype Upload = NoFilePart | FilePart(filename: string)

  /**
   Where the checks leave a request: a JSON `{'error': ...}` reply with its HTTP
   status, or handed on to be saved and processed as `kind`.
   */
  datatype Response = Rejected(status: nat, error: string) | Proceed(kind: Kind, filename: string)

  const BadRequest: nat := 400
  const NoFilePartError: string := "No file part"
  const NoSelectedFileError: string := "No selected file"
  const InvalidTypeError: string := "Invalid file type"

  /**
   The early returns shared by `analyze_image`, `analyze_video` and
   `analyze_audio`, which pass `Image`, `Video` and `Audio` as `kind`.
   */
  function Validate(upload: Upload, kind: Kind): (r: Response)
    ensures r.Rejected? ==> r.status == BadRequest
    ensures r.Proceed? ==> upload.FilePart? && r == Proceed(kind, upload.filename)
  {
    if upload.NoFilePart? then Rejected(BadRequest, NoFilePartError)
    else if upload.filename == "" then Rejected(BadRequest, NoSelectedFileError)
    else if !AllowedFile(upload.filename, kind) then Rejected(BadRequest, InvalidTypeError)
    else Proceed(kind, upload.filename)
  }

  /** A request goes on to processing iff it has a file part whose name has an allowed extension. */
  lemma ProceedsIffAllowedExtension(upload: Upload, kind: Kind)
    ensures Validate(upload, kind).Proceed? <==>
              upload.FilePart? && HasAllowedExtension(upload.filename, kind)
  {
    if upload.FilePart? {
      AllowedFileMeansAllowedExtension(upload.filename, kind);
    }
  }

  /** The missing part is reported first, whatever the kind. */
  lemma MissingPartReportedFirst(kind: Kind)
    ensures Validate(NoFilePart, kind) == Rejected(BadRequest, NoFilePartError)
  {
  }

  /**
   The empty filename is reported as "No selected file", never as an invalid
   type; "Invalid file type" is given exactly to non-empty names that fail
   `allowed_file`.
   */
  lemma InvalidTypeOnlyForNamedFiles(upload: Upload, kind: Kind)
    ensures Validate(FilePart(""), kind) == Rejected(BadRequest, NoSelectedFileError)
    ensures (Validate(upload, kind).Rejected? && Validate(upload, kind).error == InvalidTypeError)
              <==> upload.FilePart? && upload.filename != "" && !AllowedFile(upload.filename, kind)
  {
  }

  /**
   The three endpoints differ only in the kind handed to `allowed_file`: when two
   endpoints answer one request differently, the request has a non-empty file
   name and at least one of them rejects it as an invalid type.
   */
  lemma EndpointsDifferOnlyInKind(upload: Upload, k1: Kind, k2: Kind)
    requires Validate(upload, k1) != Validate(upload, k2)
    ensures upload.FilePart? && upload.filename != ""
    ensures Validate(upload, k1) == Rejected(BadRequest, InvalidTypeError)
         || Validate(upload, k2) == Rejected(BadRequest, InvalidTypeError)
  {
    if Validate(upload, k1).Proceed? && Validate(upload, k2).Proceed? {
      AcceptedForAtMostOneKind(upload.filename, k1, k2);
    }
  }

  /** An image upload named `photo.gif` is refused as an invalid type. */
  lemma GifImageRejected()
    ensures Validate(FilePart("photo.gif"), Image) == Rejected(BadRequest, InvalidTypeError)
  {
    assert "photo.gif" == "photo" + ['.'] + "gif";
    assert Lower("gif") == "gif";
    OnlyLastExtensionMatters("photo", "gif", Image);
  }

  /** `clip.tar.mp4` is judged on `mp4` alone and goes on as a video. */
  lemma DoubleExtensionJudgedOnLast()
    ensures Validate(FilePart("clip.tar.mp4"), Video) == Proceed(Video, "clip.tar.mp4")
  {
    assert "clip.tar.mp4" == "clip.tar" + ['.'] + "mp4";
    ListedExtensionAccepted("clip.tar", "mp4", Video);
  }

  /** Upper-case `A.PNG` goes on as an image. */
  lemma UpperCaseExtensionAccepted()
    ensures Validate(FilePart("A.PNG"), Image) == Proceed(Image, "A.PNG")
  {
    assert "A.PNG" == "A" + ['.'] + "PNG";
    assert Lower("PNG") == "png";
    OnlyLastExtensionMatters("A", "PNG", Image);
  }

  /** A bare `.png`, with an empty stem, goes on as an image. */
  lemma BareExtensionAccepted()
    ensures Validate(FilePart(".png"), Image) == Proceed(Image, ".png")
  {
    assert ".png" == "" + ['.'] + "png";
    ListedExtensionAccepted("", "png", Image);
  }

  /** `photo.` (trailing dot) and `png` (no dot) are refused as invalid types. */
  lemma TrailingOrMissingDotRejected()
    ensures Validate(FilePart("photo."), Image) == Rejected(BadRequest, InvalidTypeError)
    ensures Validate(FilePart("png"), Image) == Rejected(BadRequest, InvalidTypeError)
  {
    assert "photo." == "photo" + ['.'];
    TrailingDotRejected("photo", Image);
  }
}
