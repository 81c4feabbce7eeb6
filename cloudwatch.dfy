/** The exported CloudWatch record the viewer reads: a timestamp (here in
    milliseconds), an event type and the response body. */
module CloudWatch {

  datatype CWLog = CWLog(timestamp: int, eventType: string, responseBody: string)

  const OriginManifest: string := "ORIGIN_MANIFEST"
  const GeneratedManifest: string := "GENERATED_MANIFEST"

  predicate IsOrigin(r: CWLog)
  {
    r.eventType == OriginManifest
  }

  predicate IsGenerated(r: CWLog)
  {
    r.eventType == GeneratedManifest
  }

  predicate IsManifest(r: CWLog)
  {
    IsOrigin(r) || IsGenerated(r)
  }
}
