/**
 * The serving endpoint: the lazily loaded model shared by all requests,
 * the health check, and the order in which a prediction request is
 * validated before the model is asked for scores.
 */
module Server {
  import opened Wrappers
  import Upload
  import Ranking

  /** Where the trained artifact is read from. */
  const ModelPath: string := "my_image_classifier.h5"

  const NotFoundMessage: string := "Model file not found at '" + ModelPath + "'"
  const LoadedMessage: string := "Model loaded successfully"
  const LoadErrorPrefix: string := "Error loading model: "
  const AlreadyLoadedMessage: string := "Model already loaded"

  const NoImageMessage: string := "No image file provided"
  const NoFileSelectedMessage: string := "No file selected"
  const InvalidTypeMessage: string :=
    "Invalid file type. Please upload PNG, JPG, JPEG, GIF, BMP, or WEBP files."
  const PreprocessPrefix: string := "Error preprocessing image: "
  const UnexpectedPrefix: string := "An error occurred during prediction: "

  /**
   * What the file system and the model loader answer when a load is
   * attempted: whether the artifact exists, and either the loaded model
   * or the text of the loader's exception.
   */
  datatype LoadEnv<M> = LoadEnv(artifactExists: bool, attempt: Result<M, string>)

  /** The model after a call to the loader, with the call's success flag and message. */
  datatype LoadOutcome<M> = LoadOutcome(model: Option<M>, success: bool, message: string)

  /**
   * One call to the loader from state `model`: an unloaded model is loaded
   * when the artifact exists and the loader succeeds; a loaded model is
   * kept as it is.
   */
  function LoadStep<M>(model: Option<M>, env: LoadEnv<M>): (r: LoadOutcome<M>)
    ensures r.success <==> r.model.Some?
    ensures model.Some? ==> r.model == model && r.message == AlreadyLoadedMessage
    ensures !r.success ==> r.model == model
    ensures model.None? && !env.artifactExists ==> !r.success && r.message == NotFoundMessage
    ensures model.None? && env.artifactExists && env.attempt.Failure? ==>
              !r.success && r.message == LoadErrorPrefix + env.attempt.error
    ensures model.None? && r.success ==>
              env.artifactExists && env.attempt == Success(r.model.value) && r.message == LoadedMessage
  {
    match model
    case Some(_) => LoadOutcome(model, true, AlreadyLoadedMessage)
    case None =>
      if !env.artifactExists then LoadOutcome(None, false, NotFoundMessage)
      else
        match env.attempt
        case Success(m) => LoadOutcome(Some(m), true, LoadedMessage)
        case Failure(e) => LoadOutcome(None, false, LoadErrorPrefix + e)
  }

  /** The outcomes of successive calls to the loader, starting from `model`. */
  function Run<M>(model: Option<M>, envs: seq<LoadEnv<M>>): (rs: seq<LoadOutcome<M>>)
    ensures |rs| == |envs|
    decreases |envs|
  {
    if envs == [] then []
    else
      var r := LoadStep(model, envs[0]);
      [r] + Run(r.model, envs[1..])
  }

  /** Once loaded, every later call succeeds with "already loaded" and keeps the same model. */
  lemma {:induction false} LoadedIsFinal<M>(m: M, envs: seq<LoadEnv<M>>)
    ensures forall i :: 0 <= i < |envs| ==>
              Run(Some(m), envs)[i] == LoadOutcome(Some(m), true, AlreadyLoadedMessage)
  {
    if envs != [] {
      LoadedIsFinal(m, envs[1..]);
    }
  }

  /** The model of the first successful call stays loaded for every later call: nothing is reloaded. */
  lemma {:induction false} NoReload<M>(model: Option<M>, envs: seq<LoadEnv<M>>, i: nat, j: nat)
    requires i <= j < |envs| && Run(model, envs)[i].success
    ensures Run(model, envs)[j].success && Run(model, envs)[j].model == Run(model, envs)[i].model
    decreases |envs|
  {
    var r := LoadStep(model, envs[0]);
    if i == 0 {
      if j > 0 {
        LoadedIsFinal(r.model.value, envs[1..]);
        assert Run(model, envs)[j] == Run(r.model, envs[1..])[j - 1];
      }
    } else {
      NoReload(r.model, envs[1..], i - 1, j - 1);
      assert Run(model, envs)[j] == Run(r.model, envs[1..])[j - 1];
      assert Run(model, envs)[i] == Run(r.model, envs[1..])[i - 1];
    }
  }

  /**
   * While the artifact is missing every call fails and the model stays
   * unloaded; the first call after it appears and loads succeeds.
   */
  lemma {:induction false} RetriedUntilArtifactAppears<M>(envs: seq<LoadEnv<M>>, m: M)
    requires |envs| > 0
    requires forall i :: 0 <= i < |envs| - 1 ==> !envs[i].artifactExists
    requires envs[|envs| - 1] == LoadEnv(true, Success(m))
    ensures forall i :: 0 <= i < |envs| - 1 ==>
              Run(None, envs)[i] == LoadOutcome(None, false, NotFoundMessage)
    ensures Run(None, envs)[|envs| - 1] == LoadOutcome(Some(m), true, LoadedMessage)
  {
    if |envs| > 1 {
      RetriedUntilArtifactAppears(envs[1..], m);
      assert Run(None, envs) == [LoadOutcome(None, false, NotFoundMessage)] + Run(None, envs[1..]);
    }
  }

  /** The body of the health endpoint's answer. */
  datatype HealthReport = HealthReport(status: string, modelStatus: string)

  /** An answer of the prediction endpoint: a ranked prediction (status 200) or an error with its status. */
  datatype Response = Predicted(prediction: Ranking.Prediction) | Failed(status: nat, error: string)

  /** The HTTP status of an answer. */
  function StatusCode(resp: Response): nat
  {
    match resp
    case Predicted(_) => 200
    case Failed(status, _) => status
  }

  /**
   * The checks a prediction request passes through before the model is
   * asked for scores, in the order the endpoint makes them: the model
   * loads, an `image` field is present, its file name is not empty and
   * carries an allowed extension, and its bytes decode as an image.
   * The first failing check gives the answer; none gives `None`.
   */
  function Validate(loadSuccess: bool, loadMessage: string, upload: Option<string>,
                    decodeError: Option<string>): (rejection: Option<Response>)
    ensures rejection.None? <==>
              loadSuccess && upload.Some? && Upload.AllowedFile(upload.value) && decodeError.None?
    ensures rejection.Some? ==> rejection.value.Failed?
    ensures rejection.Some? ==> (StatusCode(rejection.value) == 500 <==> !loadSuccess)
    ensures rejection.Some? ==> StatusCode(rejection.value) in {400, 500}
  {
    if !loadSuccess then Some(Failed(500, loadMessage))
    else if upload.None? then Some(Failed(400, NoImageMessage))
    else if upload.value == "" then Some(Failed(400, NoFileSelectedMessage))
    else if !Upload.AllowedFile(upload.value) then Some(Failed(400, InvalidTypeMessage))
    else if decodeError.Some? then Some(Failed(400, PreprocessPrefix + decodeError.value))
    else None
  }

  /** A failed model load answers 500 with the loader's message, whatever was uploaded. */
  lemma LoadFailureAnswersFirst(loadMessage: string, upload: Option<string>, decodeError: Option<string>)
    ensures Validate(false, loadMessage, upload, decodeError) == Some(Failed(500, loadMessage))
  {
  }

  /**
   * A missing field, an empty name or a disallowed extension answers 400
   * without regard to whether the bytes would decode.
   */
  lemma UploadCheckedBeforeDecoding(loadMessage: string, upload: Option<string>,
                                    d1: Option<string>, d2: Option<string>)
    requires upload.None? || !Upload.AllowedFile(upload.value)
    ensures Validate(true, loadMessage, upload, d1) == Validate(true, loadMessage, upload, d2)
    ensures StatusCode(Validate(true, loadMessage, upload, d1).value) == 400
  {
  }

  /** The state shared by all requests: the model, `None` until a load succeeds. */
  class App<M> {
    var model: Option<M>

    constructor ()
      ensures model == None
    {
      model := None;
    }

    /** Loads the model unless it is already loaded, and reports how that went. */
    method LoadModel(env: LoadEnv<M>) returns (success: bool, message: string)
      modifies this
      ensures LoadOutcome(model, success, message) == LoadStep(old(model), env)
    {
      if model.None? {
        if !env.artifactExists {
          return false, NotFoundMessage;
        }
        match env.attempt {
          case Success(m) =>
            model := Some(m);
            return true, LoadedMessage;
          case Failure(e) =>
            return false, LoadErrorPrefix + e;
        }
      }
      return true, AlreadyLoadedMessage;
    }

    /** The health endpoint: attempts the load and reports whether the model is usable. */
    method Health(env: LoadEnv<M>) returns (report: HealthReport)
      modifies this
      ensures var r := LoadStep(old(model), env);
        && model == r.model
        && report.status == (if model.Some? then "healthy" else "error")
        && report.modelStatus == r.message
    {
      var success, message := LoadModel(env);
      report := HealthReport(if success then "healthy" else "error", message);
    }

    /**
     * The prediction endpoint. `upload` is the file name of the `image`
     * field, if present; `decodeError` the text of a failed decode;
     * `inference` the model's score vector or the text of its exception.
     */
    method Predict(env: LoadEnv<M>, upload: Option<string>, decodeError: Option<string>,
                   inference: Result<seq<real>, string>) returns (resp: Response)
      modifies this
      ensures var r := LoadStep(old(model), env);
        && model == r.model
        && var rejection := Validate(r.success, r.message, upload, decodeError);
        && (rejection.Some? ==> resp == rejection.value)
        && (rejection.None? ==>
              match inference
              case Failure(e) => resp == Failed(500, UnexpectedPrefix + e)
              case Success(scores) =>
                if Ranking.Rankable(scores) then resp == Predicted(Ranking.Ranked(scores))
                else resp == Failed(500, UnexpectedPrefix + Ranking.RankError(scores)))
    {
      var success, message := LoadModel(env);
      var rejection := Validate(success, message, upload, decodeError);
      if rejection.Some? {
        return rejection.value;
      }
      match inference {
        case Failure(e) =>
          return Failed(500, UnexpectedPrefix + e);
        case Success(scores) =>
          var ranked := Ranking.Rank(scores);
          match ranked {
            case Success(p) => resp := Predicted(p);
            case Failure(e) => resp := Failed(500, UnexpectedPrefix + e);
          }
      }
    }
  }
}
