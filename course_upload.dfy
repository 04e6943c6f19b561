/** Course creation (src/components/Instructor/UploadCourse.js): the media file check, the
    order of the form's precondition checks, the course record posted, and the form resets.
    The media upload and the course post are inputs: their responses are parameters. */
module CourseUpload {
  import opened Common

  /** A selected file as the browser describes it. */
  datatype MediaFile = MediaFile(size: int, mimeType: string)

  /** 50 MiB. */
  const MaxFileSize: int := 50 * 1024 * 1024

  const AllowedTypes: seq<string> := [
    "image/jpeg", "image/jpg", "image/png", "image/gif",
    "video/mp4", "video/avi", "video/mov", "video/quicktime",
    "application/pdf"
  ]

  datatype FileError = TooLarge | BadType

  /** validateFile: the size is checked first, then the lower-cased type against the
      allow-list; None means the file passes (the function does not throw). */
  function ValidateFile(file: MediaFile): (r: Option<FileError>)
    ensures r == Some(TooLarge) <==> file.size > MaxFileSize
    ensures r == Some(BadType) <==> file.size <= MaxFileSize && LowerStr(file.mimeType) !in AllowedTypes
    ensures r == None <==> file.size <= MaxFileSize && LowerStr(file.mimeType) in AllowedTypes
  {
    if file.size > MaxFileSize then Some(TooLarge)
    else if LowerStr(file.mimeType) !in AllowedTypes then Some(BadType)
    else None
  }

  /** Exactly 50 MiB is accepted, one byte more is not; the type is compared case-insensitively;
      an oversized file of a refused type is reported as too large. */
  lemma ValidateFileExamples()
    ensures ValidateFile(MediaFile(52428800, "video/mp4")) == None
    ensures ValidateFile(MediaFile(52428801, "video/mp4")) == Some(TooLarge)
    ensures ValidateFile(MediaFile(1024, "IMAGE/PNG")) == None
    ensures ValidateFile(MediaFile(52428801, "text/plain")) == Some(TooLarge)
  {
    assert LowerStr("IMAGE/PNG") == "image/png";
    assert LowerStr("video/mp4") == "video/mp4";
  }

  /** `file.type.startsWith("image/")`, case-sensitive. */
  predicate IsImageType(mimeType: string)
    ensures IsImageType(mimeType) <==> "image/" <= mimeType
  {
    |mimeType| >= 6 && mimeType[..6] == "image/"
  }

  /** `mediaMode`: null until one of the two media buttons is pressed. */
  datatype MediaMode = NoMode | FileMode | UrlMode

  /** The string the mode is stored as, used as the fallback media type. */
  function ModeName(m: MediaMode): string
  {
    match m
    case NoMode => ""
    case FileMode => "file"
    case UrlMode => "url"
  }

  /** The alerts of handleUpload's precondition checks, in the order they are made. */
  datatype FormError = MissingFields | NoMediaOption | NoFile | NoUrl | InvalidUrl

  /** The precondition chain: the first failing check decides the alert. A test `!x.trim()`
      is written IsBlank(x): Trim's contract makes the two the same. */
  function CheckForm(title: string, description: string, mode: MediaMode, file: Option<MediaFile>,
                     link: string, isValidUrl: string -> bool): (r: Option<FormError>)
    ensures r.None? ==> mode != NoMode && (mode == FileMode ==> file.Some?)
  {
    if IsBlank(title) || IsBlank(description) then Some(MissingFields)
    else match mode
      case NoMode => Some(NoMediaOption)
      case FileMode => if file.None? then Some(NoFile) else None
      case UrlMode =>
        if IsBlank(link) then Some(NoUrl)
        else if !isValidUrl(Trim(link)) then Some(InvalidUrl)
        else None
  }

  /** Each alert is raised exactly when its check is the first to fail; passing every check
      means both texts are filled in and the chosen medium is present and valid. */
  lemma CheckFormMeaning(title: string, description: string, mode: MediaMode, file: Option<MediaFile>,
                         link: string, isValidUrl: string -> bool, r: Option<FormError>)
    requires r == CheckForm(title, description, mode, file, link, isValidUrl)
    ensures r == Some(MissingFields) <==> IsBlank(title) || IsBlank(description)
    ensures r == Some(NoMediaOption) <==> !IsBlank(title) && !IsBlank(description) && mode == NoMode
    ensures r == Some(NoFile) <==>
      !IsBlank(title) && !IsBlank(description) && mode == FileMode && file.None?
    ensures r == Some(NoUrl) <==>
      !IsBlank(title) && !IsBlank(description) && mode == UrlMode && IsBlank(link)
    ensures r == Some(InvalidUrl) <==>
      !IsBlank(title) && !IsBlank(description) && mode == UrlMode && !IsBlank(link) && !isValidUrl(Trim(link))
    ensures r == None ==>
      !IsBlank(title) && !IsBlank(description) &&
      ((mode == FileMode && file.Some?) || (mode == UrlMode && !IsBlank(link) && isValidUrl(Trim(link))))
  {
  }

  /** The body of the media upload's response: `{ success, url, type }` (an absent type is ""). */
  datatype MediaResponse = MediaResponse(success: bool, url: string, mediaType: string)

  /** The course record posted to the courses endpoint. */
  datatype CourseData = CourseData(title: string, description: string, instructorId: Option<string>,
                                   mediaUrl: string, mediaType: string)

  /** `uploadResponse?.data?.type || mediaMode`. */
  function MediaTypeOf(response: MediaResponse, mode: MediaMode): (r: string)
    ensures response.mediaType != "" ==> r == response.mediaType
    ensures response.mediaType == "" ==> r == ModeName(mode)
  {
    if response.mediaType != "" then response.mediaType else ModeName(mode)
  }

  /** Why the `try` block of handleUpload failed. */
  datatype Failure = FileRejected(error: FileError) | MediaNotStored | RequestFailed

  datatype UploadOutcome =
    | Rejected(formError: FormError)     // an alert before anything is sent
    | Failed(failure: Failure)           // the error alert; the form is kept
    | Created(course: CourseData)        // the course was posted and the form reset

  /** What handleUpload ends with, for the form's values and the two responses:
      `mediaResponse` is what the media upload returned (None when the request itself
      failed) and `coursePosted` whether the course post succeeded. */
  function UploadResult(title: string, description: string, mode: MediaMode, file: Option<MediaFile>,
                        link: string, isValidUrl: string -> bool, instructorId: Option<string>,
                        mediaResponse: Option<MediaResponse>, coursePosted: bool): (r: UploadOutcome)
    ensures r.Rejected? <==> CheckForm(title, description, mode, file, link, isValidUrl).Some?
    ensures r.Created? ==> mediaResponse.Some? && mediaResponse.value.success && coursePosted
  {
    var check := CheckForm(title, description, mode, file, link, isValidUrl);
    if check.Some? then Rejected(check.value)
    else if mode == FileMode && ValidateFile(file.value).Some? then Failed(FileRejected(ValidateFile(file.value).value))
    else if mediaResponse.None? then Failed(RequestFailed)
    else if !mediaResponse.value.success then Failed(MediaNotStored)
    else if !coursePosted then Failed(RequestFailed)
    else Created(CourseData(Trim(title), Trim(description), instructorId, mediaResponse.value.url,
                            MediaTypeOf(mediaResponse.value, mode)))
  }

  /** A rejection exactly when a check fails; a file rejection only for a file the validator
      refuses; a created course only once every check and both requests have succeeded. */
  lemma UploadResultMeaning(title: string, description: string, mode: MediaMode, file: Option<MediaFile>,
                            link: string, isValidUrl: string -> bool, instructorId: Option<string>,
                            mediaResponse: Option<MediaResponse>, coursePosted: bool, outcome: UploadOutcome)
    requires outcome == UploadResult(title, description, mode, file, link, isValidUrl, instructorId,
                                     mediaResponse, coursePosted)
    ensures var check := CheckForm(title, description, mode, file, link, isValidUrl);
      && (outcome.Rejected? <==> check.Some?)
      && (outcome.Rejected? ==> outcome.formError == check.value)
    ensures outcome.Failed? && outcome.failure.FileRejected? ==>
      mode == FileMode && file.Some? && ValidateFile(file.value) == Some(outcome.failure.error)
    ensures outcome.Created? ==>
      && !IsBlank(title) && !IsBlank(description) && mode != NoMode
      && (mode == FileMode ==> file.Some? && ValidateFile(file.value).None?)
      && (mode == UrlMode ==> isValidUrl(Trim(link)))
      && mediaResponse.Some? && mediaResponse.value.success && coursePosted
      && outcome.course == CourseData(Trim(title), Trim(description), instructorId,
                                      mediaResponse.value.url, MediaTypeOf(mediaResponse.value, mode))
  {
    CheckFormMeaning(title, description, mode, file, link, isValidUrl,
                     CheckForm(title, description, mode, file, link, isValidUrl));
  }


  /** The `try` block of handleUpload, reached once every check has passed: the file is
      validated, the media is uploaded and the course is posted, the first failure ending it. */
  method SubmitCourse(title: string, description: string, mode: MediaMode, file: Option<MediaFile>,
                      link: string, isValidUrl: string -> bool, instructorId: Option<string>,
                      mediaResponse: Option<MediaResponse>, coursePosted: bool) returns (outcome: UploadOutcome)
    requires CheckForm(title, description, mode, file, link, isValidUrl) == None
    ensures outcome == UploadResult(title, description, mode, file, link, isValidUrl, instructorId,
                                    mediaResponse, coursePosted)
    ensures !outcome.Rejected?
  {
    if mode == FileMode {
      var fileError := ValidateFile(file.value);
      if fileError.Some? {
        return Failed(FileRejected(fileError.value));
      }
    }
    if mediaResponse.None? {
      return Failed(RequestFailed);
    }
    if !mediaResponse.value.success {
      return Failed(MediaNotStored);
    }
    var courseData := CourseData(Trim(title), Trim(description), instructorId, mediaResponse.value.url,
                                 MediaTypeOf(mediaResponse.value, mode));
    if !coursePosted {
      return Failed(RequestFailed);
    }
    outcome := Created(courseData);
  }

  class CourseUploadForm {
    var title: string
    var description: string
    var mediaFile: Option<MediaFile>
    var mediaLink: string
    var mediaMode: MediaMode
    var previewUrl: string
    var isUploading: bool

    constructor ()
      ensures title == "" && description == "" && mediaFile == None && mediaLink == ""
      ensures mediaMode == NoMode && previewUrl == "" && !isUploading
    {
      title, description, mediaFile, mediaLink := "", "", None, "";
      mediaMode, previewUrl, isUploading := NoMode, "", false;
    }

    /** handleFileSelect: the chosen file (None when the dialog was cancelled) replaces the
        old one; an image's preview becomes its data URL (`dataUrl`, what the file reader
        yields), any other file clears the preview, and a cancelled dialog leaves it. */
    method HandleFileSelect(file: Option<MediaFile>, dataUrl: string)
      modifies this
      ensures mediaFile == file
      ensures file.Some? && IsImageType(file.value.mimeType) ==> previewUrl == dataUrl
      ensures file.Some? && !IsImageType(file.value.mimeType) ==> previewUrl == ""
      ensures file.None? ==> previewUrl == old(previewUrl)
      ensures title == old(title) && description == old(description) && mediaLink == old(mediaLink)
      ensures mediaMode == old(mediaMode) && isUploading == old(isUploading)
    {
      mediaFile := file;
      if file.Some? {
        if IsImageType(file.value.mimeType) {
          previewUrl := dataUrl;
        } else {
          previewUrl := "";
        }
      }
    }

    /** resetMediaSelection: clears the mode, the file, the link and the preview only. */
    method ResetMediaSelection()
      modifies this
      ensures mediaMode == NoMode && mediaFile == None && mediaLink == "" && previewUrl == ""
      ensures title == old(title) && description == old(description) && isUploading == old(isUploading)
    {
      mediaMode, mediaFile, mediaLink, previewUrl := NoMode, None, "", "";
    }

    /** handleUpload: the checks and requests in order; a created course resets every field. */
    method HandleUpload(isValidUrl: string -> bool, instructorId: Option<string>,
                        mediaResponse: Option<MediaResponse>, coursePosted: bool)
      returns (outcome: UploadOutcome)
      modifies this
      ensures outcome == UploadResult(old(title), old(description), old(mediaMode), old(mediaFile),
                                      old(mediaLink), isValidUrl, instructorId, mediaResponse, coursePosted)
      ensures outcome.Created? ==>
        title == "" && description == "" && mediaFile == None && mediaLink == "" &&
        mediaMode == NoMode && previewUrl == ""
      ensures !outcome.Created? ==>
        title == old(title) && description == old(description) && mediaFile == old(mediaFile) &&
        mediaLink == old(mediaLink) && mediaMode == old(mediaMode) && previewUrl == old(previewUrl)
      ensures outcome.Rejected? ==> isUploading == old(isUploading)
      ensures !outcome.Rejected? ==> !isUploading
    {
      var check := CheckForm(title, description, mediaMode, mediaFile, mediaLink, isValidUrl);
      if check.Some? {
        return Rejected(check.value);
      }
      isUploading := true;
      outcome := SubmitCourse(title, description, mediaMode, mediaFile, mediaLink, isValidUrl,
                              instructorId, mediaResponse, coursePosted);
      if outcome.Created? {
        title, description := "", "";
        ResetMediaSelection();
      }
      isUploading := false;
    }
  }
}
