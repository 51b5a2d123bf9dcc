/** The guard chain of `describeImageFromUrl`: the checks made on an image
    before it is sent to the generative model, each failing with its own
    message. The HTTP fetch and the model call are oracles. */
module DescribeImages {
  import opened Wrappers

  /** Largest accepted image, in bytes. */
  const MaxImageBytes: nat := 17000000

  const MissingKeyMessage: string := "GOOGLE_GENERATIVE_AI_API_KEY is not set"
  const FetchFailedMessage: string := "Failed to fetch image or gif"
  const SvgMessage: string := "SVG not supported"
  const GifMessage: string := "GIF not supported"
  const TooLargeMessage: string := "File too large"
  const GenerationFailedMessage: string := "Failed to generate description"

  const SvgType: string := "image/svg+xml"
  const GifType: string := "image/gif"

  /** What `fetch(url)` followed by `arrayBuffer()` gives: a thrown error,
      or a response with its status, its Content-Type header and the length
      of its body. */
  datatype FetchOutcome =
    | FetchThrew(message: string)
    | Response(ok: bool, contentType: Option<string>, byteLength: nat)

  /** What the model is asked: the image (named by its url) with its type,
      and the title and description of the page it comes from. */
  datatype GenRequest = GenRequest(
    mimeType: string,
    imageUrl: string,
    resourceTitle: string,
    resourceDescription: string)

  datatype GenOutcome = GenThrew(message: string) | Generated(text: Option<string>)

  /** The environment variable holding the API key, and the two calls. */
  datatype Collaborators = Collaborators(
    apiKey: Option<string>,
    fetch: string -> FetchOutcome,
    generate: GenRequest -> GenOutcome)

  datatype Description = Description(mimeType: string, description: string)

  /** JavaScript truthiness of an optional string. */
  predicate Truthy(s: Option<string>) {
    s.Some? && s.value != ""
  }

  /** The checks made on the fetched image, in the order the code makes
      them. Success carries the Content-Type. */
  function CheckResponse(resp: FetchOutcome): (r: Result<string, string>)
    // a thrown fetch error propagates with its own message
    ensures resp.FetchThrew? ==> r == Failure(resp.message)
    ensures resp.Response? && !resp.ok ==> r == Failure(FetchFailedMessage)
    // SVG is rejected whatever its size, GIF likewise
    ensures resp.Response? && resp.ok && resp.contentType == Some(SvgType) ==> r == Failure(SvgMessage)
    ensures resp.Response? && resp.ok && resp.contentType == Some(GifType) ==> r == Failure(GifMessage)
    // the size check comes before the missing-type check
    ensures (resp.Response? && resp.ok && resp.contentType != Some(SvgType) && resp.contentType != Some(GifType))
              ==> (r == Failure(TooLargeMessage) <==> resp.byteLength > MaxImageBytes)
    ensures (resp.Response? && resp.ok && !Truthy(resp.contentType) && resp.byteLength <= MaxImageBytes)
              ==> r == Failure(FetchFailedMessage)
    ensures r.Success? <==>
              && resp.Response? && resp.ok && Truthy(resp.contentType)
              && resp.contentType.value != SvgType && resp.contentType.value != GifType
              && resp.byteLength <= MaxImageBytes
    ensures r.Success? ==> r.value == resp.contentType.value
  {
    match resp
    case FetchThrew(m) => Failure(m)
    case Response(ok, contentType, byteLength) =>
      if !ok then Failure(FetchFailedMessage)
      else if contentType == Some(SvgType) then Failure(SvgMessage)
      else if contentType == Some(GifType) then Failure(GifMessage)
      else if byteLength > MaxImageBytes then Failure(TooLargeMessage)
      else if !Truthy(contentType) then Failure(FetchFailedMessage)
      else Success(contentType.value)
  }

  /** `describeImageFromUrl(fileURL, resourceTitle, resourceDescription)`:
      the thrown error's message, or the Content-Type and the generated
      text. */
  function DescribeImageFromUrl(env: Collaborators, fileUrl: string, title: string, description: string)
    : (r: Result<Description, string>)
    // without a key nothing is fetched: the outcome depends on neither call
    ensures !Truthy(env.apiKey) ==> r == Failure(MissingKeyMessage)
    ensures r.Success? <==>
              && Truthy(env.apiKey)
              && CheckResponse(env.fetch(fileUrl)).Success?
              && var mime := CheckResponse(env.fetch(fileUrl)).value;
                 var gen := env.generate(GenRequest(mime, fileUrl, title, description));
                 gen.Generated? && Truthy(gen.text)
    // on success: the response's Content-Type and non-empty generated text
    ensures r.Success? ==>
              && env.fetch(fileUrl).Response?
              && env.fetch(fileUrl).contentType == Some(r.value.mimeType)
              && r.value.description != ""
              && env.generate(GenRequest(r.value.mimeType, fileUrl, title, description))
                 == Generated(Some(r.value.description))
    // a failed check on the response is reported as such
    ensures (Truthy(env.apiKey) && CheckResponse(env.fetch(fileUrl)).Failure?)
              ==> r == Failure(CheckResponse(env.fetch(fileUrl)).error)
    // once the checks pass, a thrown model error propagates with its own
    // message, and empty text is reported as a failed generation
    ensures (Truthy(env.apiKey) && CheckResponse(env.fetch(fileUrl)).Success?) ==>
              var gen := env.generate(GenRequest(CheckResponse(env.fetch(fileUrl)).value, fileUrl, title, description));
              && (gen.GenThrew? ==> r == Failure(gen.message))
              && (gen.Generated? && !Truthy(gen.text) ==> r == Failure(GenerationFailedMessage))
  {
    if !Truthy(env.apiKey) then Failure(MissingKeyMessage)
    else
      match CheckResponse(env.fetch(fileUrl))
      case Failure(m) => Failure(m)
      case Success(mime) =>
        match env.generate(GenRequest(mime, fileUrl, title, description))
        case GenThrew(m) => Failure(m)
        case Generated(text) =>
          if !Truthy(text) then Failure(GenerationFailedMessage)
          else Success(Description(mime, text.value))
  }

  /** The size limit is strict: a PNG of exactly `MaxImageBytes` bytes passes
      the checks and one byte more does not. */
  lemma SizeLimitIsStrict(pngType: string)
    requires pngType == "image/png"
    ensures CheckResponse(Response(true, Some(pngType), MaxImageBytes)) == Success(pngType)
    ensures CheckResponse(Response(true, Some(pngType), MaxImageBytes + 1)) == Failure(TooLargeMessage)
  {
    assert pngType != SvgType && pngType != GifType by {
      assert pngType[6] != SvgType[6] && pngType[6] != GifType[6];
    }
  }

  /** An SVG too large to upload still reports the SVG error, and so does a
      GIF the GIF error: the type checks precede the size check. */
  lemma TypeBeforeSize(n: nat)
    requires n > MaxImageBytes
    ensures CheckResponse(Response(true, Some(SvgType), n)) == Failure(SvgMessage)
    ensures CheckResponse(Response(true, Some(GifType), n)) == Failure(GifMessage)
    ensures CheckResponse(Response(true, None, n)) == Failure(TooLargeMessage)
    ensures CheckResponse(Response(true, Some(""), n)) == Failure(TooLargeMessage)
  {
    assert SvgType != GifType by { assert SvgType[6] != GifType[6]; }
  }
}
