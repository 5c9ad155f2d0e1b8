/**
  The add-anime form (components/anime-form.tsx): its text fields, the chosen
  image and the error banner, the checks run before submitting, and the
  document handed to the database. The upload and the database write are
  outcomes passed in; the environment variables are parameters.
*/
module AnimeForm {
  import opened Js

  datatype FormField = Name | Language | Season | TotalEpisodes | FeaturedRank

  /** `formData`: every input's current text. The admin page's edit buffer
      has the same five fields but holds dynamically typed values, since it
      is filled from a stored document; this one only ever holds strings. */
  datatype FormData = FormData(name: string, language: string, season: string, totalEpisodes: string, featuredRank: string)
  {
    function Get(f: FormField): string {
      match f
      case Name => name
      case Language => language
      case Season => season
      case TotalEpisodes => totalEpisodes
      case FeaturedRank => featuredRank
    }

    /** `{ ...prev, [field]: value }` */
    function Set(f: FormField, v: string): (d: FormData)
      ensures d.Get(f) == v
      ensures forall g :: g != f ==> d.Get(g) == Get(g)
    {
      match f
      case Name => this.(name := v)
      case Language => this.(language := v)
      case Season => this.(season := v)
      case TotalEpisodes => this.(totalEpisodes := v)
      case FeaturedRank => this.(featuredRank := v)
    }
  }

  const EmptyForm := FormData("", "", "", "", "")

  /** A picked file: its MIME type and its size in bytes. */
  datatype File = File(fileName: string, mimeType: string, size: nat)

  const MaxImageBytes: nat := 10 * 1024 * 1024

  const InvalidTypeMessage := "Please select a valid image file"
  const TooLargeMessage := "Image size must be less than 10MB"
  const NameRequiredMessage := "Anime name is required"
  const ImageRequiredMessage := "Please select an image"
  const MissingConfigMessage := "Cloudinary configuration is missing. Please check your environment variables."
  const FallbackMessage := "Failed to add anime. Please try again."

  /** The checks of `handleImageChange`, type first: `None` accepts the file. */
  function ImageCheck(file: File): (r: Option<string>)
    ensures r.None? <==> StartsWith(file.mimeType, "image/") && file.size <= MaxImageBytes
    ensures !StartsWith(file.mimeType, "image/") ==> r == Some(InvalidTypeMessage)
    ensures StartsWith(file.mimeType, "image/") && file.size > MaxImageBytes ==> r == Some(TooLargeMessage)
  {
    if !StartsWith(file.mimeType, "image/") then Some(InvalidTypeMessage)
    else if file.size > MaxImageBytes then Some(TooLargeMessage)
    else None
  }

  /** A 10 MiB image is accepted and one byte more is refused. */
  lemma ImageSizeBoundary(mimeType: string)
    requires StartsWith(mimeType, "image/")
    ensures ImageCheck(File("a.png", mimeType, 10485760)).None?
    ensures ImageCheck(File("a.png", mimeType, 10485761)) == Some(TooLargeMessage)
  {
  }

  /** The checks of `validateForm`, name first: `None` lets the submit go on. */
  function ValidationError(form: FormData, image: Option<File>): (r: Option<string>)
    ensures r.None? <==> Trim(form.name) != "" && image.Some?
    ensures Trim(form.name) == "" ==> r == Some(NameRequiredMessage)
    ensures Trim(form.name) != "" && image.None? ==> r == Some(ImageRequiredMessage)
  {
    if !Truthy(Str(Trim(form.name))) then Some(NameRequiredMessage)
    else if image.None? then Some(ImageRequiredMessage)
    else None
  }

  /** The document `addDoc` receives, apart from the server timestamp; `None` is `null`. */
  datatype NewAnime = NewAnime(
    name: string,
    language: Option<string>,
    season: Option<string>,
    totalEpisodes: Option<Number>,
    imageUrl: string,
    featuredRank: Option<Number>)

  /** `v || null` for a text input. */
  function TextOrNull(s: string): (r: Option<string>)
    ensures r.None? <==> s == ""
    ensures r.Some? ==> r.value == s
  {
    if Truthy(Str(s)) then Some(s) else None
  }

  /** The document literal built for `addDoc`. */
  function BuildDocument(form: FormData, imageUrl: string): (d: NewAnime)
    ensures d.name == Trim(form.name) && d.imageUrl == imageUrl
    ensures d.language.None? <==> form.language == ""
    ensures d.language.Some? ==> d.language.value == form.language
    ensures d.season.None? <==> Trim(form.season) == ""
    ensures d.season.Some? ==> d.season.value == Trim(form.season)
    ensures d.totalEpisodes.None? <==> form.totalEpisodes == ""
    ensures d.totalEpisodes.Some? ==> d.totalEpisodes.value == ParseInt(form.totalEpisodes)
    ensures d.featuredRank.None? <==> form.featuredRank == ""
    ensures d.featuredRank.Some? ==> d.featuredRank.value == ToNumber(form.featuredRank)
  {
    NewAnime(
      Trim(form.name),
      TextOrNull(form.language),
      TextOrNull(Trim(form.season)),
      if Truthy(Str(form.totalEpisodes)) then Some(ParseInt(form.totalEpisodes)) else None,
      imageUrl,
      if Truthy(Str(form.featuredRank)) then Some(ToNumber(form.featuredRank)) else None)
  }

  /** A form that passes validation yields a document whose name is
      non-empty and already trimmed. */
  lemma ValidDocumentName(form: FormData, image: Option<File>, imageUrl: string)
    requires ValidationError(form, image).None?
    ensures var d := BuildDocument(form, imageUrl);
            d.name != "" && Trim(d.name) == d.name
  {
    TrimIdempotent(form.name);
  }

  /** A stored season is already trimmed. */
  lemma DocumentSeasonTrimmed(form: FormData, imageUrl: string)
    ensures var d := BuildDocument(form, imageUrl);
            d.season.Some? ==> d.season.value != "" && Trim(d.season.value) == d.season.value
  {
    TrimIdempotent(form.season);
  }

  /** Counts and ranks typed as the decimal text of an integer are stored as that integer. */
  lemma TypedNumbersStored(form: FormData, imageUrl: string, episodes: int, rank: int)
    requires form.totalEpisodes == IntToString(episodes) && form.featuredRank == IntToString(rank)
    ensures BuildDocument(form, imageUrl).totalEpisodes == Some(Finite(episodes))
    ensures BuildDocument(form, imageUrl).featuredRank == Some(Finite(rank))
  {
    ParseIntOfIntToString(episodes);
    NumberOfIntToString(rank);
  }

  /** Both Cloudinary settings are set to a non-empty string; an unset
      environment variable is `Undefined`. */
  predicate Configured(cloudName: Value, uploadPreset: Value): (b: bool)
    ensures cloudName == Undefined || uploadPreset == Undefined ==> !b
    ensures cloudName == Str("") || uploadPreset == Str("") ==> !b
    ensures cloudName.Str? && uploadPreset.Str? ==> (b <==> cloudName.s != "" && uploadPreset.s != "")
  {
    Truthy(cloudName) && Truthy(uploadPreset)
  }

  /** What the upload step produced. A failure carries the thrown error's
      message, or nothing when what was thrown is not an `Error`. */
  datatype Outcome<T> = Done(value: T) | Failed(message: Option<string>)

  /** `error instanceof Error ? error.message : "Failed to add anime. Please try again."` */
  function FailureMessage(message: Option<string>): (r: string)
    ensures message.Some? ==> r == message.value
    ensures message.None? ==> r == FallbackMessage
  {
    match message
    case Some(m) => m
    case None => FallbackMessage
  }

  /** The add form's component state, apart from the loading flag and the progress bar. */
  class FormState {
    var formData: FormData
    var imageFile: Option<File>
    var imagePreview: Option<string>
    var error: Option<string>

    /** A stored image always passed the file checks. */
    ghost predicate Valid()
      reads this
    {
      imageFile.Some? ==> ImageCheck(imageFile.value).None?
    }

    constructor()
      ensures Valid()
      ensures formData == EmptyForm && imageFile == None && imagePreview == None && error == None
    {
      formData := EmptyForm;
      imageFile := None;
      imagePreview := None;
      error := None;
    }

    /** `handleInputChange`: one field takes the typed text and the banner clears. */
    method HandleInputChange(field: FormField, value: string)
      modifies this
      ensures formData.Get(field) == value
      ensures forall g :: g != field ==> formData.Get(g) == old(formData).Get(g)
      ensures error == None
      ensures imageFile == old(imageFile) && imagePreview == old(imagePreview)
    {
      formData := formData.Set(field, value);
      error := None;
    }

    /** `handleImageChange`: no file changes nothing; a refused file only sets
        the banner; an accepted file is stored and the banner clears. */
    method HandleImageChange(file: Option<File>)
      requires Valid()
      modifies this
      ensures Valid()
      ensures file.None? ==> imageFile == old(imageFile) && error == old(error)
      ensures file.Some? && ImageCheck(file.value).Some? ==>
        imageFile == old(imageFile) && error == ImageCheck(file.value)
      ensures file.Some? && ImageCheck(file.value).None? ==> imageFile == file && error == None
      ensures formData == old(formData) && imagePreview == old(imagePreview)
    {
      if file.Some? {
        var problem := ImageCheck(file.value);
        if problem.Some? {
          error := problem;
          return;
        }
        imageFile := file;
        error := None;
      }
    }

    /** The `FileReader` callback: the preview shows the file's data URL. */
    method PreviewLoaded(dataUrl: string)
      modifies this
      ensures imagePreview == Some(dataUrl)
      ensures formData == old(formData) && imageFile == old(imageFile) && error == old(error)
    {
      imagePreview := Some(dataUrl);
    }

    /** `validateForm`: on failure the banner shows the first failing check. */
    method ValidateForm() returns (ok: bool)
      modifies this
      ensures ok <==> ValidationError(formData, imageFile).None?
      ensures error == if ok then old(error) else ValidationError(formData, imageFile)
      ensures formData == old(formData) && imageFile == old(imageFile) && imagePreview == old(imagePreview)
    {
      var problem := ValidationError(formData, imageFile);
      if problem.Some? {
        error := problem;
        return false;
      }
      return true;
    }

    /** `handleSubmit`, given both Cloudinary settings, the upload's outcome and
        the outcome of the database write. Returns the stored document. */
    method Submit(cloudName: Value, uploadPreset: Value, upload: Outcome<string>, write: Outcome<()>)
      returns (stored: Option<NewAnime>)
      requires Valid()
      modifies this
      ensures Valid()
      ensures var invalid := ValidationError(old(formData), old(imageFile));
        && (invalid.Some? ==> stored.None? && error == invalid)
        && (invalid.None? && !Configured(cloudName, uploadPreset) ==>
              stored.None? && error == Some(MissingConfigMessage))
        && (invalid.None? && Configured(cloudName, uploadPreset) && upload.Failed? ==>
              stored.None? && error == Some(FailureMessage(upload.message)))
        && (invalid.None? && Configured(cloudName, uploadPreset) && upload.Done? && write.Failed? ==>
              stored.None? && error == Some(FailureMessage(write.message)))
        && (invalid.None? && Configured(cloudName, uploadPreset) && upload.Done? && write.Done? ==>
              stored == Some(BuildDocument(old(formData), upload.value)) && error == None)
      ensures stored.None? ==>
        formData == old(formData) && imageFile == old(imageFile) && imagePreview == old(imagePreview)
      ensures stored.Some? ==> formData == EmptyForm && imageFile == None && imagePreview == None
    {
      error := None;
      var ok := ValidateForm();
      if !ok {
        stored := None;
      } else if !Configured(cloudName, uploadPreset) {
        error := Some(MissingConfigMessage);
        stored := None;
      } else if upload.Failed? {
        error := Some(FailureMessage(upload.message));
        stored := None;
      } else if write.Failed? {
        error := Some(FailureMessage(write.message));
        stored := None;
      } else {
        stored := Some(BuildDocument(formData, upload.value));
        formData := EmptyForm;
        imageFile := None;
        imagePreview := None;
      }
    }
  }
}
