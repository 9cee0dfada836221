/** The recorded data: scenarios made of sequences made of steps. */
module Scenarios {
  import opened Wrappers
  import opened Mime

  /** A recorded response: its status, its header and the name of the file that holds
      its body ("" when no body file was written). */
  datatype Response = Response(statusCode: int, header: Header, bodyFilename: string)

  /** One HTTP hop. A hop whose request failed carries the error message and no
      response; every other hop carries its response and an empty error. */
  datatype Step = Step(requestMethod: string, requestUrl: string, response: Option<Response>, err: string)

  /** One recorded interaction: the hops of a redirect chain, in the order they happened. */
  datatype Sequence = Sequence(steps: seq<Step>)

  /** A scenario held in memory, whose list of sequences grows as recordings are added. */
  class Scenario {
    var sequences: seq<Sequence>

    /** A scenario holding the sequences read from its file (none for a new one). */
    constructor (loaded: seq<Sequence>)
      ensures sequences == loaded
    {
      sequences := loaded;
    }

    /** The number of sequences held, which numbers the next recording. */
    function Count(): nat
      reads this
    {
      |sequences|
    }

    /** Appends a sequence. Whether adding can fail is decided outside the model:
        `failure` is that outcome, and a failed add leaves the scenario as it was. */
    method AddSequence(s: Sequence, failure: Option<string>) returns (err: Option<string>)
      modifies this
      ensures err == failure
      ensures sequences == if failure.None? then old(sequences) + [s] else old(sequences)
    {
      err := failure;
      if failure.None? {
        sequences := sequences + [s];
      }
    }
  }
}
