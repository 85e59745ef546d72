/**
 * Stand-ins for the JMeter objects the core passes around. Only the parts the
 * core inspects are represented; everything else is an opaque identifier.
 */
module Samples {
  import opened Wrappers

  /** An `HTTPSamplerBase`: its identity and the comment the engine may set. */
  datatype Sampler = Sampler(id: nat, comment: string)

  /** A `SampleResult`: its identity, success flag and (possibly null) content type. */
  datatype SampleResult = SampleResult(id: nat, successful: bool, contentType: Option<string>)
}
