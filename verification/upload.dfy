/**
 The upload button of the browser client: guard against a missing file,
 convert the selected image to grayscale, post it to the OCR endpoint and put
 the outcome into the output element.

 The browser and the network are parameters: the selected file arrives
 already decoded to canvas pixels (or known to be undecodable), and the
 exchange with the server arrives as the parsed JSON reply, or as nothing
 when `fetch` or `res.json()` throws.
 */
module Upload {
  import opened GrayscalePass
  import opened GrayscaleProperties

  datatype Option<T> = None | Some(value: T)

  const SelectPrompt := "Please select an image"
  const ProcessingText := "Processing OCR..."
  const ExtractErrorText := "Error extracting text"
  const ProcessingErrorText := "Error during processing"

  /** What the file input holds when the button is pressed. */
  datatype Selection =
    | NoFile                     // `imageInput.files[0]` is undefined
    | Undecodable                // the reader or the image never fires `onload`
    | Decoded(pixels: seq<int>)  // the canvas pixels of the decoded image; empty
                                 // when its width or height is zero, in which
                                 // case `getImageData` throws inside `onload`

  /** The JSON body of the /ocr response as the client reads it; `text` is
      absent from the server's failure reply. */
  datatype Reply = Reply(success: bool, text: Option<string>)

  /** What one press of the button leaves behind: an alert, the pixels of
      the image posted to the server, and the final text of the output
      element (None: left as it was). */
  datatype Effect = Effect(alert: Option<string>, sent: Option<seq<int>>, shown: Option<string>)

  /** The string the output element displays after `textContent` is set to
      `data.text`: an absent field renders as the empty string. */
  function TextContent(text: Option<string>): string {
    match text
    case Some(t) => t
    case None => ""
  }

  /** The display choice: the server's text on success, a fixed message
      otherwise, so no detail of a failure reaches the page. */
  function DisplayText(reply: Reply): (t: string)
    ensures reply.success && reply.text.Some? ==> t == reply.text.value
    ensures reply.success && reply.text.None? ==> t == ""
    ensures !reply.success ==> t == ExtractErrorText
  {
    if reply.success then TextContent(reply.text) else ExtractErrorText
  }

  /** The page cannot tell one failed reply from another, and it tells apart
      every two successful replies that carry different text. */
  lemma DisplayTextSeparatesOutcomes(r1: Reply, r2: Reply)
    ensures !r1.success && !r2.success ==> DisplayText(r1) == DisplayText(r2)
    ensures r1.success && r2.success && r1.text.Some? && r2.text.Some? && r1.text != r2.text
      ==> DisplayText(r1) != DisplayText(r2)
  {
  }

  /** One press of the upload button. */
  method UploadImage(selection: Selection, exchange: Option<Reply>) returns (e: Effect)
    requires selection.Decoded? ==> ValidImageData(selection.pixels)
    // a missing file raises the alert, leaves the page alone and sends nothing
    ensures e.alert.Some? <==> selection.NoFile?
    ensures e.alert.Some? ==> e.alert.value == SelectPrompt && e.shown.None?
    // a request goes out exactly when an image was decoded, and what goes out
    // is that image's grayscale pass
    ensures e.sent.Some? <==> selection.Decoded? && |selection.pixels| > 0
    ensures e.sent.Some? ==> e.sent.value == Grayscale(selection.pixels)
    ensures e.sent.Some? ==> IsGrayImage(e.sent.value)
    ensures e.sent.Some? ==> forall i :: 0 <= i < |e.sent.value| && i % 4 == 3 ==>
      e.sent.value[i] == selection.pixels[i]
    // an image that never decodes, or decodes with no pixels, leaves the
    // progress message up for good: the promise never settles
    ensures selection.Undecodable? ==> e.shown == Some(ProcessingText)
    ensures selection.Decoded? && |selection.pixels| == 0 ==> e.shown == Some(ProcessingText)
    // after a request the page shows the reply's text or a fixed message
    ensures e.sent.Some? && exchange.None? ==> e.shown == Some(ProcessingErrorText)
    ensures e.sent.Some? && exchange.Some? ==> e.shown == Some(DisplayText(exchange.value))
  {
    match selection
    case NoFile =>
      e := Effect(Some(SelectPrompt), None, None);
    case Undecodable =>
      e := Effect(None, None, Some(ProcessingText));
    case Decoded(pixels) =>
      if |pixels| == 0 {
        e := Effect(None, None, Some(ProcessingText));
        return;
      }
      var gray := ProcessToGrayscale(pixels);
      GrayscaleMakesGray(pixels);
      GrayscaleKeepsAlpha(pixels);
      match exchange
      case None =>
        e := Effect(None, Some(gray), Some(ProcessingErrorText));
      case Some(reply) =>
        e := Effect(None, Some(gray), Some(DisplayText(reply)));
  }
}
