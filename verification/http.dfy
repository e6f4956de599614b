/**
 Handler results. HTML and JSON bodies are tags that carry only the data the
 model reasons about; the page markup is not modelled.
 */
module Http {
  import opened QrStore

  datatype Body =
    | EmptyBody
      /** the page of `generate404Page()` */
    | NotFoundPage
      /** the WeChat interstitial page that leads to `target` */
    | InterstitialPage(target: string)
      /** `{error: message}` */
    | ErrorJson(message: string)
      /** `{shortCode, name, expiresAt, qrUrl}` with `expiresAt` in milliseconds */
    | CreatedJson(shortCode: string, name: string, expiresAt: int, qrUrl: string)
      /** the array of rows returned by a listing */
    | ListJson(records: seq<QrRecord>)
      /** `{success: true}` */
    | SuccessJson

  datatype Response = Response(status: int, headers: map<string, string>, body: Body)

  /** A handler's answer together with the store it leaves behind. */
  datatype Outcome = Outcome(response: Response, store: Store)

  const NoCache := "no-cache, no-store, must-revalidate"
  const HtmlType := "text/html; charset=utf-8"

  /** The one response for every resolution failure. */
  const NotFoundResponse := Response(404, map["Content-Type" := HtmlType], NotFoundPage)

  /** The cross-origin headers of the two JSON endpoints. */
  function CorsHeaders(methods: string): map<string, string> {
    map[
      "Access-Control-Allow-Origin" := "*",
      "Access-Control-Allow-Headers" := "Content-Type",
      "Access-Control-Allow-Methods" := methods]
  }

}
