/**
 * Face detection as the Node backends see it. The api backend asks the
 * Python face service (`detectFace`, `extractEmbedding`) and its
 * `detect-preview` endpoint combines the two; the older backend runs
 * face-api.js in-process (`detectFace`, `extractEmbedding`).
 */
module FaceDetection {
  import opened Wrappers
  import FaceService
  import opened Strings

  type Scan = FaceService.Scan

  const LoadingMsg := "Face recognition service is still loading. Please try again in a few seconds."

  /**
   * api `detectFace`: `ready` is the service state once `ensureReady` has
   * made its extra health check; a failed call to the service counts as
   * no face.
   */
  function ApiDetectFace(ready: bool, scan: Scan): (r: Result<bool, string>)
    ensures !ready ==> r == Err(LoadingMsg)
    ensures ready ==> r.Ok? && (r.value <==> FaceService.OneFace(scan))
  {
    if !ready then Err(LoadingMsg)
    else
      match FaceService.Detect(scan)
      case Err(_) => Ok(false)
      case Ok(body) => Ok(body.detected)
  }

  /** api `extractEmbedding`: the service's 400s and 500s all become "no embedding". */
  function ApiExtractEmbedding(ready: bool, scan: Scan): (r: Result<Option<seq<real>>, string>)
    ensures !ready ==> r == Err(LoadingMsg)
    ensures ready ==> r.Ok? && (r.value.Some? <==> FaceService.OneFace(scan))
    ensures r.Ok? && r.value.Some? ==> r.value.value == scan.faces[0].embedding
  {
    if !ready then Err(LoadingMsg)
    else
      match FaceService.Extract(scan)
      case Err(_) => Ok(None)
      case Ok(body) => Ok(Some(body.embedding))
  }

  datatype Preview = Preview(detected: bool, confidence: real, faceCount: nat, message: string)

  const FailedMsg := "Failed to process image. Please try again with a different photo."

  /** The `catch` of `detectPreview`: only a 'multiple faces' error becomes a result. */
  function Caught(message: string): (r: Result<Preview, HttpError>)
    ensures Contains(message, "multiple faces") ==> r.Ok? && r.value.faceCount == 2 && !r.value.detected
    ensures !Contains(message, "multiple faces") ==> r == Err(BadRequest(FailedMsg))
  {
    if Contains(message, "multiple faces") then
      Ok(Preview(false, 0.0, 2, "Multiple faces detected. Please upload a photo with exactly one face."))
    else Err(BadRequest(FailedMsg))
  }

  const NoFaceMsg := "No face detected. Please upload a clear photo with exactly one face."
  const LowQualityMsg :=
    "Face detected but quality is too low. Please use better lighting and ensure face is clearly visible."
  const SuitableMsg := "Face detected successfully! This photo is suitable for facial recognition."

  /**
   * `detectPreview`: no file is a 400; otherwise detection, then embedding
   * extraction, each answering "no" with a zero-count preview. The two are
   * separate calls to the face service, so each gets its own `Scan` of the
   * same image: `scan` for detection, `rescan` for extraction.
   */
  function DetectPreview(file: bool, ready: bool, scan: Scan, rescan: Scan): (r: Result<Preview, HttpError>)
    ensures !file ==> r == Err(BadRequest("No image file provided"))
    ensures r.Ok? ==> (r.value.detected <==> r.value.faceCount == 1)
    ensures r.Ok? && r.value.detected ==> r.value.confidence == 0.85
    ensures r.Ok? && !r.value.detected ==> r.value.confidence == 0.0
  {
    if !file then Err(BadRequest("No image file provided"))
    else
      match ApiDetectFace(ready, scan)
      case Err(e) => Caught(e)
      case Ok(found) =>
        if !found then
          Ok(Preview(false, 0.0, 0, NoFaceMsg))
        else
          match ApiExtractEmbedding(ready, rescan)
          case Err(e) => Caught(e)
          case Ok(embedding) =>
            if embedding.None? then
              Ok(Preview(false, 0.0, 0,
                LowQualityMsg))
            else
              Ok(Preview(true, 0.85, 1, SuitableMsg))
  }

  /**
   * When both calls see the same faces, the only error that reaches the
   * `catch` is the service still loading. Once the service is up, the
   * preview is positive exactly when the photo shows one face, and an
   * image with several faces is answered like one with none: the service
   * errors are swallowed before the "multiple faces" test could see them.
   */
  lemma PreviewOutcomes(file: bool, ready: bool, scan: Scan)
    requires file
    ensures !ready ==> DetectPreview(file, ready, scan, scan) == Caught(LoadingMsg)
    ensures ready ==> DetectPreview(file, ready, scan, scan).Ok?
    ensures ready ==> (DetectPreview(file, ready, scan, scan).value.detected <==> FaceService.OneFace(scan))
    ensures ready ==> DetectPreview(file, ready, scan, scan).value.faceCount != 2
  {
  }

  // ---------------------------------------------------------------------
  // The older backend: face-api.js in-process
  // ---------------------------------------------------------------------

  const NotLoadedMsg := "Face recognition models not loaded"
  const MinDetectionScore: real := 0.5

  /**
   * Local `detectFace`: exactly one detection, scoring at least 0.5. An
   * image that cannot be read is `false`; models not loaded is thrown.
   */
  function LocalDetectFace(modelsLoaded: bool, scan: Scan): (r: Result<bool, string>)
    ensures !modelsLoaded ==> r == Err(NotLoadedMsg)
    ensures modelsLoaded ==> r.Ok?
    ensures r == Ok(true) <==>
      modelsLoaded && FaceService.OneFace(scan) && scan.faces[0].score >= MinDetectionScore
  {
    if !modelsLoaded then Err(NotLoadedMsg)
    else
      match scan
      case Unreadable(_) => Ok(false)
      case Faces(faces) =>
        if |faces| == 0 then Ok(false)
        else if |faces| > 1 then Ok(false)
        else if faces[0].score < MinDetectionScore then Ok(false)
        else Ok(true)
  }

  /** Index of the first highest-scoring face. */
  function Strongest(faces: seq<FaceService.Face>): (i: nat)
    requires |faces| > 0
    ensures i < |faces|
    ensures forall j :: 0 <= j < |faces| ==> faces[j].score <= faces[i].score
    decreases |faces|
  {
    if |faces| == 1 then 0
    else
      var rest := Strongest(faces[1..]) + 1;
      assert forall j :: 1 <= j < |faces| ==> faces[j] == faces[1..][j - 1];
      if faces[0].score >= faces[rest].score then 0 else rest
  }

  /**
   * Local `extractEmbedding` (`detectSingleFace`): the descriptor of the
   * best-scoring face, whether or not there are others; none for an image
   * without a face or one that cannot be read.
   */
  function LocalExtractEmbedding(modelsLoaded: bool, scan: Scan): (r: Result<Option<seq<real>>, string>)
    ensures !modelsLoaded ==> r == Err(NotLoadedMsg)
    ensures modelsLoaded ==> r.Ok? && (r.value.Some? <==> scan.Faces? && |scan.faces| > 0)
    ensures r.Ok? && r.value.Some? ==>
      exists i :: 0 <= i < |scan.faces| && r.value.value == scan.faces[i].embedding
        && forall j :: 0 <= j < |scan.faces| ==> scan.faces[j].score <= scan.faces[i].score
  {
    if !modelsLoaded then Err(NotLoadedMsg)
    else
      match scan
      case Unreadable(_) => Ok(None)
      case Faces(faces) =>
        if |faces| == 0 then Ok(None)
        else Ok(Some(faces[Strongest(faces)].embedding))
  }
}
