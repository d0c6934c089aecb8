/**
 * What the installers do, as the sequence of their observable actions: the searches, the
 * zip validations, the download requests, the extractions and the deletions.
 */
module Trace {
  /** One observable action of an installer, in the order they happen. */
  datatype Step =
    | Search                  // look for an installer zip
    | Validate(zip: string)   // open a zip and check its entries
    | Request(url: string)    // download from a mirror
    | Extract(zip: string)    // extract a zip into the data directory
    | Delete(path: string)    // remove a file

  /** One `Request` step per URL, in order. */
  function RequestSteps(urls: seq<string>): (steps: seq<Step>)
    ensures |steps| == |urls| && forall i :: 0 <= i < |urls| ==> steps[i] == Request(urls[i])
  {
    seq(|urls|, i requires 0 <= i < |urls| => Request(urls[i]))
  }

  lemma RequestStepsAppend(urls: seq<string>, url: string)
    ensures RequestSteps(urls + [url]) == RequestSteps(urls) + [Request(url)]
  {
  }
}
