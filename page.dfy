/**
 * The state of the `Home` page component (src/app/page.tsx) and its handlers:
 * choosing a file, moving the quality slider, removing the image and copying
 * the base64 text.
 *
 * The browser's canvas recompression inside `applyQualityCompression` (drawing
 * the image scaled by quality / 100 and `toDataURL('image/jpeg', 0.9)`, then
 * `toBlob(..., 'image/png')`) is a function the page is given: from the stored
 * data URL and a quality it yields the JPEG data URL and, when the PNG blob is
 * not null, its size. FileReader, the image decoder and the clipboard are the
 * inputs of the handlers.
 */
module Page {
  import opened Wrappers
  import Chunking
  import Literal
  import Utf8

  datatype Dimensions = Dimensions(width: nat, height: nat)

  /** What the canvas hands back for one recompression. */
  datatype Compressed = Compressed(jpegDataUrl: string, pngBlobSize: Option<nat>)

  /**
   * A chosen file as the browser presents it: its size, the data URL the
   * FileReader produces, and the dimensions of the decoded image, None when the
   * image element never loads it.
   */
  datatype SelectedFile = SelectedFile(size: nat, dataUrl: string, decoded: Option<Dimensions>)

  /** The component's `useState` fields, lines 9-19. `preview` never holds null. */
  datatype PageState = PageState(
    error: string,
    success: string,
    originalImage: Option<string>,
    preview: string,
    formattedBase64: string,
    isNewImageSelected: bool,
    imageDimensions: Option<Dimensions>,
    fileSize: Option<nat>,
    base64Size: Option<nat>,
    pngSize: Option<nat>,
    quality: int)

  const DefaultQuality: int := 100
  const CopiedMessage: string := "Image Base64 copied to clipboard!"
  const NoImageMessage: string := "No image selected!"

  function Initial(avatar: string): PageState {
    PageState("", "", None, avatar, "", false, None, None, None, None, DefaultQuality)
  }

  /** The text `splitBase64` stores for a string, with the default chunk size. */
  function SplitText(s: string): string {
    Literal.Render(Chunking.Chunks(s, Chunking.DefaultChunkSize))
  }

  /** The effect of `applyQualityCompression` once the canvas has answered (lines 73-82). */
  function AfterCompression(st: PageState, c: Compressed): PageState {
    st.(preview := c.jpegDataUrl,
        formattedBase64 := SplitText(c.jpegDataUrl),
        base64Size := Some(Utf8.ByteLength(c.jpegDataUrl)),
        pngSize := if c.pngBlobSize.Some? then c.pngBlobSize else st.pngSize)
  }

  /** `handleImageChange`, lines 34-59, with its callbacks run to completion. */
  function OnImageChange(st: PageState, file: Option<SelectedFile>, compress: (string, int) -> Compressed): PageState {
    match file
    case None => st
    case Some(f) =>
      var selected := st.(fileSize := Some(f.size));
      if f.dataUrl == "" then selected
      else
        var read := selected.(preview := f.dataUrl);
        match f.decoded
        case None => read
        case Some(dims) =>
          var loaded := read.(imageDimensions := Some(dims), originalImage := Some(f.dataUrl));
          AfterCompression(loaded, compress(f.dataUrl, loaded.quality)).(isNewImageSelected := true, error := "")
  }

  /** `handleSliderChange`, lines 111-116. */
  function OnSliderChange(st: PageState, value: int, compress: (string, int) -> Compressed): PageState {
    var moved := st.(quality := value);
    match st.originalImage
    case Some(image) => AfterCompression(moved, compress(image, value))
    case None => moved
  }

  /** The remove branch of `handleConvertBase64`, lines 89-100, setter by setter. */
  function OnRemove(st: PageState, avatar: string): PageState {
    var cleared := st.(error := "", success := "");
    var interim := cleared.(base64Size := Some(Utf8.ByteLength(cleared.preview)));
    interim.(preview := avatar, originalImage := None, isNewImageSelected := false,
             fileSize := None, base64Size := None, pngSize := None)
  }

  /**
   * The copy branch of `handleConvertBase64`, lines 89-90 and 103-108: the new
   * state and what was written to the clipboard. `clipboardAccepts` is whether
   * the browser's `writeText` promise resolves.
   */
  function OnCopy(st: PageState, clipboardAccepts: bool): (PageState, Option<string>) {
    var cleared := st.(error := "", success := "");
    if st.preview != "" then
      if clipboardAccepts then (cleared.(success := CopiedMessage), Some(st.preview))
      else (cleared, None)
    else (cleared.(error := NoImageMessage), None)
  }

  /**
   * What every handler keeps: the slider and copy button are enabled exactly when
   * an image is stored; a stored image has a file size, a base64 size and
   * dimensions; no base64 or PNG size without a stored image; the quality stays
   * within the slider's range.
   */
  predicate Consistent(st: PageState) {
    && (st.isNewImageSelected <==> st.originalImage.Some?)
    && (st.originalImage.Some? ==> st.fileSize.Some? && st.base64Size.Some? && st.imageDimensions.Some?)
    && (st.base64Size.Some? ==> st.originalImage.Some?)
    && (st.pngSize.Some? ==> st.originalImage.Some?)
    && 1 <= st.quality <= 100
  }

  class HomePage {
    const defaultAvatar: string
    const compress: (string, int) -> Compressed

    var error: string
    var success: string
    var originalImage: Option<string>
    var preview: string
    var formattedBase64: string
    var isNewImageSelected: bool
    var imageDimensions: Option<Dimensions>
    var fileSize: Option<nat>
    var base64Size: Option<nat>
    var pngSize: Option<nat>
    var quality: int

    function State(): PageState
      reads this
    {
      PageState(error, success, originalImage, preview, formattedBase64, isNewImageSelected,
                imageDimensions, fileSize, base64Size, pngSize, quality)
    }

    ghost predicate Valid()
      reads this
    {
      Consistent(State())
    }

    constructor (avatar: string, compress: (string, int) -> Compressed)
      ensures Valid()
      ensures State() == Initial(avatar)
      ensures defaultAvatar == avatar && this.compress == compress
    {
      defaultAvatar := avatar;
      this.compress := compress;
      error, success := "", "";
      originalImage := None;
      preview := avatar;
      formattedBase64 := "";
      isNewImageSelected := false;
      imageDimensions := None;
      fileSize, base64Size, pngSize := None, None, None;
      quality := DefaultQuality;
    }

    /** `splitBase64`, lines 147-156. */
    method SplitBase64(base64String: string, chunkSize: nat := Chunking.DefaultChunkSize)
      requires chunkSize > 0
      modifies this`formattedBase64
      ensures formattedBase64 == Literal.Render(Chunking.Chunks(base64String, chunkSize))
    {
      var chunks := Chunking.SplitChunks(base64String, chunkSize);
      var joinedChunks := Literal.Render(chunks);
      formattedBase64 := joinedChunks;
    }

    /** `applyQualityCompression`, lines 61-85, once the canvas has answered. */
    method ApplyQualityCompression(base64: string, quality: int)
      modifies this`preview, this`formattedBase64, this`base64Size, this`pngSize
      ensures State() == AfterCompression(old(State()), compress(base64, quality))
    {
      var compressed := compress(base64, quality);
      preview := compressed.jpegDataUrl;
      SplitBase64(compressed.jpegDataUrl);
      base64Size := Some(Utf8.ByteLength(compressed.jpegDataUrl));
      if compressed.pngBlobSize.Some? {
        pngSize := compressed.pngBlobSize;
      }
    }

    method HandleImageChange(file: Option<SelectedFile>)
      requires Valid()
      modifies this
      ensures Valid()
      ensures State() == OnImageChange(old(State()), file, compress)
    {
      if file.None? {
        return;
      }
      var f := file.value;
      ghost var before := State();
      fileSize := Some(f.size);
      if f.dataUrl != "" {
        preview := f.dataUrl;
        if f.decoded.Some? {
          imageDimensions := f.decoded;
          originalImage := Some(f.dataUrl);
          ghost var loaded := State();
          assert loaded == before.(fileSize := Some(f.size), preview := f.dataUrl,
                                   imageDimensions := f.decoded, originalImage := Some(f.dataUrl));
          ApplyQualityCompression(f.dataUrl, quality);
          assert State() == AfterCompression(loaded, compress(f.dataUrl, loaded.quality));
          isNewImageSelected := true;
          error := "";
        }
      }
      IngestKeepsConsistent(before, file, compress);
    }

    /** Returns what was written to the clipboard, if anything. */
    method HandleConvertBase64(isRemove: bool, clipboardAccepts: bool) returns (clipboard: Option<string>)
      requires Valid()
      modifies this
      ensures Valid()
      ensures isRemove ==> State() == OnRemove(old(State()), defaultAvatar) && clipboard == None
      ensures !isRemove ==> (State(), clipboard) == OnCopy(old(State()), clipboardAccepts)
    {
      error := "";
      success := "";
      clipboard := None;
      ghost var cleared := State();
      assert cleared == old(State()).(error := "", success := "");
      if isRemove {
        base64Size := Some(Utf8.ByteLength(preview));
        preview := defaultAvatar;
        originalImage := None;
        isNewImageSelected := false;
        fileSize := None;
        base64Size := None;
        pngSize := None;
        assert State() == OnRemove(old(State()), defaultAvatar);
        RemoveKeepsConsistent(old(State()), defaultAvatar);
        return;
      }
      if preview != "" {
        if clipboardAccepts {
          clipboard := Some(preview);
          success := CopiedMessage;
        }
      } else {
        error := NoImageMessage;
      }
      assert (State(), clipboard) == OnCopy(old(State()), clipboardAccepts);
      CopyKeepsConsistent(old(State()), clipboardAccepts);
    }

    /** The range input only produces integers from 1 to 100 (lines 196-201). */
    method HandleSliderChange(value: int)
      requires Valid()
      requires 1 <= value <= 100
      modifies this
      ensures Valid()
      ensures State() == OnSliderChange(old(State()), value, compress)
    {
      quality := value;
      if originalImage.Some? {
        ApplyQualityCompression(originalImage.value, value);
      }
      SliderKeepsConsistent(old(State()), value, compress);
    }
  }

  // Properties of the transitions.

  lemma InitialConsistent(avatar: string)
    ensures Consistent(Initial(avatar))
  {
  }

  lemma IngestKeepsConsistent(st: PageState, file: Option<SelectedFile>, compress: (string, int) -> Compressed)
    requires Consistent(st)
    ensures Consistent(OnImageChange(st, file, compress))
  {
  }

  lemma SliderKeepsConsistent(st: PageState, value: int, compress: (string, int) -> Compressed)
    requires Consistent(st) && 1 <= value <= 100
    ensures Consistent(OnSliderChange(st, value, compress))
  {
  }

  lemma RemoveKeepsConsistent(st: PageState, avatar: string)
    requires Consistent(st)
    ensures Consistent(OnRemove(st, avatar))
  {
  }

  lemma CopyKeepsConsistent(st: PageState, clipboardAccepts: bool)
    requires Consistent(st)
    ensures Consistent(OnCopy(st, clipboardAccepts).0)
  {
  }

  /** Without a file, choosing does nothing (line 36). */
  lemma IngestNoFile(st: PageState, compress: (string, int) -> Compressed)
    ensures OnImageChange(st, None, compress) == st
  {
  }

  /**
   * A file that decodes is stored as the original and compressed at the quality
   * the slider shows, not at 100: the preview, the chunked text and the base64
   * size all come from that compression; the slider and copy button are enabled
   * and the error cleared.
   */
  lemma IngestCompressesAtCurrentQuality(st: PageState, f: SelectedFile, compress: (string, int) -> Compressed)
    requires f.dataUrl != "" && f.decoded.Some?
    ensures var st' := OnImageChange(st, Some(f), compress);
      var c := compress(f.dataUrl, st.quality);
      && st'.fileSize == Some(f.size)
      && st'.originalImage == Some(f.dataUrl)
      && st'.imageDimensions == f.decoded
      && st'.quality == st.quality
      && st'.preview == c.jpegDataUrl
      && st'.formattedBase64 == SplitText(c.jpegDataUrl)
      && st'.base64Size == Some(Utf8.ByteLength(c.jpegDataUrl))
      && st'.pngSize == (if c.pngBlobSize.Some? then c.pngBlobSize else st.pngSize)
      && st'.isNewImageSelected && st'.error == "" && st'.success == st.success
  {
  }

  /**
   * A file the image element cannot load only sets the file size and the preview
   * (to the file's own data URL): a previously stored original, its sizes and its
   * chunked text stay, so the preview and the chunked text then disagree.
   */
  lemma IngestUndecodable(st: PageState, f: SelectedFile, compress: (string, int) -> Compressed)
    requires f.dataUrl != "" && f.decoded.None?
    ensures OnImageChange(st, Some(f), compress) == st.(fileSize := Some(f.size), preview := f.dataUrl)
  {
  }

  /** Without a stored image the slider only moves (line 113). */
  lemma SliderWithoutImage(st: PageState, value: int, compress: (string, int) -> Compressed)
    requires st.originalImage.None?
    ensures OnSliderChange(st, value, compress) == st.(quality := value)
  {
  }

  /**
   * With a stored image the slider recompresses that image, never the current
   * preview: the new preview, chunked text and base64 size are those of
   * compressing the original at the new value, and nothing else but the PNG
   * size changes.
   */
  lemma SliderRecompressesOriginal(st: PageState, value: int, compress: (string, int) -> Compressed)
    requires st.originalImage.Some?
    ensures var st' := OnSliderChange(st, value, compress);
      var c := compress(st.originalImage.value, value);
      && st'.quality == value
      && st'.preview == c.jpegDataUrl
      && st'.formattedBase64 == SplitText(st'.preview)
      && st'.base64Size == Some(Utf8.ByteLength(st'.preview))
      && st'.pngSize == (if c.pngBlobSize.Some? then c.pngBlobSize else st.pngSize)
      && st' == st.(quality := value, preview := st'.preview, formattedBase64 := st'.formattedBase64,
                    base64Size := st'.base64Size, pngSize := st'.pngSize)
  {
  }

  /**
   * Slider moves do not compound: moving to a and then to b leaves the state that
   * moving straight to b leaves, except that a PNG size from a survives when the
   * canvas gives no PNG blob at b.
   */
  lemma SliderDoesNotCompound(st: PageState, a: int, b: int, compress: (string, int) -> Compressed)
    ensures var twice := OnSliderChange(OnSliderChange(st, a, compress), b, compress);
      var once := OnSliderChange(st, b, compress);
      && twice.(pngSize := once.pngSize) == once
      && (st.originalImage.None? || compress(st.originalImage.value, b).pngBlobSize.Some? ==> twice == once)
  {
  }

  /** Moving the slider twice to the same value is moving it once. */
  lemma SliderIdempotent(st: PageState, value: int, compress: (string, int) -> Compressed)
    ensures OnSliderChange(OnSliderChange(st, value, compress), value, compress) == OnSliderChange(st, value, compress)
  {
    SliderDoesNotCompound(st, value, value, compress);
  }

  /**
   * Remove restores the initial state except for the quality, the chunked text
   * and the image dimensions, which it leaves as they were; the interim base64
   * size of line 93 does not survive.
   */
  lemma RemoveEffects(st: PageState, avatar: string)
    ensures OnRemove(st, avatar) ==
      Initial(avatar).(quality := st.quality, formattedBase64 := st.formattedBase64,
                       imageDimensions := st.imageDimensions)
  {
  }

  /** Remove gives back the initial state exactly when those three fields are still initial. */
  lemma RemoveRestoresInitialIff(st: PageState, avatar: string)
    ensures OnRemove(st, avatar) == Initial(avatar) <==>
      st.quality == DefaultQuality && st.formattedBase64 == "" && st.imageDimensions.None?
  {
    RemoveEffects(st, avatar);
  }

  lemma RemoveIdempotent(st: PageState, avatar: string)
    ensures OnRemove(OnRemove(st, avatar), avatar) == OnRemove(st, avatar)
  {
  }

  lemma SplitTextNonEmpty(s: string)
    ensures |SplitText(s)| >= |Literal.Header| + |Literal.Footer|
  {
  }

  /** Choosing an image and removing it does not return the page to its initial state. */
  lemma IngestThenRemoveIsNotInitial(avatar: string, f: SelectedFile, compress: (string, int) -> Compressed)
    requires f.dataUrl != "" && f.decoded.Some?
    ensures OnRemove(OnImageChange(Initial(avatar), Some(f), compress), avatar) != Initial(avatar)
  {
    var loaded := OnImageChange(Initial(avatar), Some(f), compress);
    SplitTextNonEmpty(loaded.preview);
    RemoveRestoresInitialIff(loaded, avatar);
  }

  /**
   * After a recompression the chunked text is the split of the very string just
   * stored as the preview: evaluated, it gives the preview back.
   */
  lemma CompressedLiteralMatchesPreview(st: PageState, c: Compressed)
    requires Literal.PlainText(c.jpegDataUrl)
    ensures var st' := AfterCompression(st, c);
      Literal.Evaluate(st'.formattedBase64) == Some(st'.preview)
  {
    Literal.RenderRoundTrip(c.jpegDataUrl, Chunking.DefaultChunkSize);
  }

  /** The same, for a slider move with a stored image. */
  lemma SliderLiteralMatchesPreview(st: PageState, value: int, compress: (string, int) -> Compressed)
    requires st.originalImage.Some?
    requires Literal.PlainText(compress(st.originalImage.value, value).jpegDataUrl)
    ensures var st' := OnSliderChange(st, value, compress);
      Literal.Evaluate(st'.formattedBase64) == Some(st'.preview)
  {
    CompressedLiteralMatchesPreview(st.(quality := value), compress(st.originalImage.value, value));
  }

  /**
   * Copy clears both messages; it writes the preview to the clipboard and
   * reports success exactly when there is a preview and the browser accepts the
   * write, and reports "No image selected!" exactly when there is no preview.
   * No other field changes.
   */
  lemma CopyOutcome(st: PageState, clipboardAccepts: bool)
    ensures var (st', clipboard) := OnCopy(st, clipboardAccepts);
      && (clipboard.Some? <==> st.preview != "" && clipboardAccepts)
      && (clipboard.Some? ==> clipboard.value == st.preview)
      && (st'.success == CopiedMessage <==> clipboard.Some?)
      && (clipboard.None? ==> st'.success == "")
      && (st'.error == NoImageMessage <==> st.preview == "")
      && (st.preview != "" ==> st'.error == "")
      && st'.(error := st.error, success := st.success) == st
  {
  }
}
