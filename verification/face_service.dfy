/**
 * The Python face service (`face-service/app.py`): `/detect`,
 * `/extract-embedding` and `/compare`. The InsightFace model and image
 * decoding are not modelled: an uploaded image arrives as a `Scan`, the
 * faces the model finds in it, or the exception raised on the way.
 */
module FaceService {
  import opened Wrappers
  import opened Strings
  import FaceMatch

  /** One detected face: its detection score and its normalised embedding. */
  datatype Face = Face(score: real, embedding: seq<real>)

  datatype Scan = Unreadable(reason: string) | Faces(faces: seq<Face>)

  predicate OneFace(scan: Scan) {
    scan.Faces? && |scan.faces| == 1
  }

  datatype Detection = Detection(detected: bool, faceCount: nat, confidence: Option<real>, message: string)

  /**
   * `/detect`: reports how many faces there are and succeeds only for
   * exactly one, whose detection score is the confidence. Anything raised
   * while reading the image becomes a 500 carrying its message.
   */
  function Detect(scan: Scan): (r: Result<Detection, HttpError>)
    ensures r.Err? <==> scan.Unreadable?
    ensures r.Err? ==> r.error == ServerError(scan.reason)
    ensures r.Ok? ==> r.value.faceCount == |scan.faces|
    ensures r.Ok? ==> (r.value.detected <==> r.value.faceCount == 1)
    ensures r.Ok? && r.value.detected ==> r.value.confidence == Some(scan.faces[0].score)
  {
    match scan
    case Unreadable(reason) => Err(ServerError(reason))
    case Faces(faces) =>
      if |faces| == 0 then Ok(Detection(false, 0, None, "No face detected"))
      else if |faces| > 1 then
        Ok(Detection(false, |faces|, None, "Multiple faces detected (" + Decimal(|faces|) + ")"))
      else Ok(Detection(true, 1, Some(faces[0].score), "Single face detected successfully"))
  }

  datatype Extraction = Extraction(embedding: seq<real>, confidence: real, embeddingSize: nat)

  /**
   * `/extract-embedding`: a 400 unless the image shows exactly one face;
   * on success the reported size is the embedding's length.
   */
  function Extract(scan: Scan): (r: Result<Extraction, HttpError>)
    ensures r.Ok? <==> OneFace(scan)
    ensures r.Ok? ==> r.value.embedding == scan.faces[0].embedding && r.value.embeddingSize == |r.value.embedding|
    ensures scan.Faces? && |scan.faces| != 1 ==> r.Err? && r.error.BadRequest?
    ensures scan.Unreadable? ==> r == Err(ServerError(scan.reason))
  {
    match scan
    case Unreadable(reason) => Err(ServerError(reason))
    case Faces(faces) =>
      if |faces| == 0 then Err(BadRequest("No face detected in image"))
      else if |faces| > 1 then
        Err(BadRequest("Multiple faces detected (" + Decimal(|faces|) + "). Please provide image with single face."))
      else Ok(Extraction(faces[0].embedding, faces[0].score, |faces[0].embedding|))
  }

  /** `(similarity + 1) * 50`: the cosine similarity as a percentage. */
  function SimilarityPercent(similarity: real): (c: real)
    ensures -1.0 <= similarity <= 1.0 <==> 0.0 <= c <= 100.0
    ensures similarity >= 0.4 <==> c >= 70.0
  {
    (similarity + 1.0) * 50.0
  }

  /** The percentage is strictly increasing in the similarity, and every percentage in [0, 100] is reached. */
  lemma SimilarityPercentIncreasingOnto(s1: real, s2: real, c: real)
    requires s1 < s2
    requires 0.0 <= c <= 100.0
    ensures SimilarityPercent(s1) < SimilarityPercent(s2)
    ensures -1.0 <= c / 50.0 - 1.0 <= 1.0 && SimilarityPercent(c / 50.0 - 1.0) == c
  {
  }

  const SamePersonThreshold: real := 70.0

  datatype Comparison = Comparison(similarity: real, confidence: real, samePerson: bool)

  const NoFaceMsg := "Face not detected in one or both images"
  const ManyFacesMsg := "Multiple faces detected in one or both images"

  /**
   * `/compare`: a missing face in either image is reported before several
   * faces in either; with one face each, the similarity is the dot product
   * of the normalised embeddings (`np.dot`, which raises when the lengths
   * differ).
   */
  function Compare(scan1: Scan, scan2: Scan): (r: Result<Comparison, HttpError>)
    ensures scan1.Unreadable? ==> r == Err(ServerError(scan1.reason))
    ensures scan1.Faces? && scan2.Unreadable? ==> r == Err(ServerError(scan2.reason))
    ensures scan1.Faces? && scan2.Faces? && (|scan1.faces| == 0 || |scan2.faces| == 0) ==>
              r == Err(BadRequest(NoFaceMsg))
    ensures (scan1.Faces? && scan2.Faces? && |scan1.faces| > 0 && |scan2.faces| > 0
             && (|scan1.faces| > 1 || |scan2.faces| > 1)) ==> r == Err(BadRequest(ManyFacesMsg))
    ensures r.Ok? <==> OneFace(scan1) && OneFace(scan2)
                       && |scan1.faces[0].embedding| == |scan2.faces[0].embedding|
    ensures r.Ok? ==> (r.value.samePerson <==> r.value.similarity >= 0.4)
  {
    if scan1.Unreadable? then Err(ServerError(scan1.reason))
    else if scan2.Unreadable? then Err(ServerError(scan2.reason))
    else if |scan1.faces| == 0 || |scan2.faces| == 0 then Err(BadRequest(NoFaceMsg))
    else if |scan1.faces| > 1 || |scan2.faces| > 1 then Err(BadRequest(ManyFacesMsg))
    else
      var e1, e2 := scan1.faces[0].embedding, scan2.faces[0].embedding;
      if |e1| != |e2| then Err(ServerError("shapes not aligned"))
      else
        var similarity := FaceMatch.Dot(e1, e2);
        var confidence := SimilarityPercent(similarity);
        Ok(Comparison(similarity, confidence, confidence >= SamePersonThreshold))
  }

  /**
   * For unit-length embeddings (as InsightFace's `normed_embedding` are)
   * the similarity is in [-1, 1], so the confidence is a true percentage.
   */
  lemma NormedConfidenceInRange(scan1: Scan, scan2: Scan)
    requires Compare(scan1, scan2).Ok?
    requires FaceMatch.Dot(scan1.faces[0].embedding, scan1.faces[0].embedding) == 1.0
    requires FaceMatch.Dot(scan2.faces[0].embedding, scan2.faces[0].embedding) == 1.0
    ensures 0.0 <= Compare(scan1, scan2).value.confidence <= 100.0
  {
    var e1, e2 := scan1.faces[0].embedding, scan2.faces[0].embedding;
    FaceMatch.CauchySchwarz(e1, e2, 1.0, 1.0);
  }
}
