/** The episode/job loop of `main`: list the show's episodes, resolve the
    first one and queue one download job for it. The download engine, its
    workers and the final wait are outside the model; the queue is the
    sequence of jobs handed to it. */
module Orchestrator {
  import opened Wrappers
  import opened Web
  import opened Html
  import opened Payloads
  import Episodes
  import Metadata
  import Resolver

  /** The download engine's job kinds; the program only builds list downloads. */
  datatype JobType = ListDL

  datatype Job = Job(kind: JobType, url: string, skipConverter: bool,
                     destPath: string, filename: string)

  const OutputFileName := "test"

  /** The job built for a stream URL: a list download into ".", named
      "test", with the converter enabled. */
  function EpisodeJob(url: string): (j: Job)
    ensures j.url == url && j.kind == ListDL && !j.skipConverter
    ensures j.destPath == "." && j.filename == OutputFileName
  {
    Job(ListDL, url, false, ".", OutputFileName)
  }

  /** What a run does: stop on a discovery failure (the fatal log), or hand
      the queued jobs to the engine. */
  datatype Run = Fatal(error: Error) | Queued(jobs: seq<Job>)

  /** `main` after argument checking, as written: the loop over the episode
      URLs breaks after its first iteration, and a resolution failure is only
      logged, so the job is queued with the empty URL the failed call
      returned. */
  function RunShow(env: Env, showURL: string): (run: Run)
    ensures Episodes.ListEpisodes(env, showURL).Failure? ==>
              run == Fatal(Episodes.ListEpisodes(env, showURL).error)
    ensures Episodes.ListEpisodes(env, showURL).Success? ==> run.Queued? && |run.jobs| <= 1
    ensures Episodes.ListEpisodes(env, showURL).Success? ==>
              var urls := Episodes.ListEpisodes(env, showURL).value;
              (run.jobs == [] <==> urls == []) &&
              (urls != [] ==> run.jobs == [EpisodeJob(Metadata.DownloadShow(env, urls[0]).GetOr(""))])
  {
    match Episodes.ListEpisodes(env, showURL)
    case Failure(e) => Fatal(e)
    case Success(urls) =>
      if urls == [] then Queued([])
      else
        var url := Metadata.DownloadShow(env, urls[0]).GetOr("");
        Queued([EpisodeJob(url)])
  }

  /** The job is queued even when resolution failed, with an empty URL. */
  lemma FailedResolutionStillQueued(env: Env, showURL: string)
    requires Episodes.ListEpisodes(env, showURL).Success?
    requires var urls := Episodes.ListEpisodes(env, showURL).value;
             urls != [] && Metadata.DownloadShow(env, urls[0]).Failure?
    ensures RunShow(env, showURL) == Queued([EpisodeJob("")])
  {
  }

  /** The corrected loop: as in the source only the first episode is
      processed, but a failed resolution queues nothing. Every queued job
      carries a URL the resolver actually produced; a reply that decodes with
      an empty `url` still yields a job with that empty URL. */
  function RunShowResolvedOnly(env: Env, showURL: string): (run: Run)
    ensures Episodes.ListEpisodes(env, showURL).Failure? ==>
              run == Fatal(Episodes.ListEpisodes(env, showURL).error)
    ensures Episodes.ListEpisodes(env, showURL).Success? ==> run.Queued? && |run.jobs| <= 1
    ensures run.Queued? ==>
              var urls := Episodes.ListEpisodes(env, showURL).value;
              forall j | j in run.jobs ::
                urls != [] && j == EpisodeJob(j.url) &&
                Metadata.DownloadShow(env, urls[0]) == Success(j.url)
    ensures run.Queued? ==>
              var urls := Episodes.ListEpisodes(env, showURL).value;
              (run.jobs == [] <==> urls == [] || Metadata.DownloadShow(env, urls[0]).Failure?)
  {
    match Episodes.ListEpisodes(env, showURL)
    case Failure(e) => Fatal(e)
    case Success(urls) =>
      if urls == [] then Queued([])
      else
        match Metadata.DownloadShow(env, urls[0])
        case Failure(_) => Queued([])
        case Success(url) => Queued([EpisodeJob(url)])
  }

  /** The corrected run never queues a job the resolver did not produce, and
      it differs from the run as written only when resolution failed. */
  lemma ResolvedOnlyAgreesOnSuccess(env: Env, showURL: string)
    ensures RunShowResolvedOnly(env, showURL) != RunShow(env, showURL) <==>
              Episodes.ListEpisodes(env, showURL).Success? &&
              Episodes.ListEpisodes(env, showURL).value != [] &&
              Metadata.DownloadShow(env, Episodes.ListEpisodes(env, showURL).value[0]).Failure?
  {
  }

  /** End to end: when every stage succeeds for the first episode, the one
      queued job carries the validation reply's `url` field. */
  lemma FirstEpisodeStreamQueued(env: Env, showURL: string, urls: seq<string>,
                                 pageRes: Response, page: Document, config: EpisodeConfig,
                                 validationRes: Response, reply: ValidationReply)
    requires Episodes.ListEpisodes(env, showURL) == Success(urls) && urls != []
    requires env.web(urls[0]) == Some(pageRes) && pageRes.status == 200
    requires env.parseHtml(pageRes.body) == Some(page)
    requires env.decodeEpisode(Metadata.ConsoleInfo(page)) == Some(config)
    requires env.web(Resolver.ValidationURL(config.idMedia)) == Some(validationRes)
    requires validationRes.status == 200 && env.decodeValidation(validationRes.body) == Some(reply)
    ensures RunShow(env, showURL) == Queued([EpisodeJob(reply.url)])
  {
    Metadata.DecodedIdIsResolved(env, urls[0], page, config);
    Resolver.RccReturnsDecodedURL(env, config.idMedia, validationRes, reply);
  }
}
