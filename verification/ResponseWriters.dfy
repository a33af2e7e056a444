/** The response writer with its header marker, and the JSON-RPC error writer. */
module ResponseWriters {
  import opened FailoverSpec

  class ResponseWriter {
    var statusSet: bool      // the X-Status-Set header
    var statuses: seq<int>
    var body: seq<Segment>

    constructor ()
      ensures Contents() == FRESH
    {
      statusSet, statuses, body := false, [], [];
    }

    ghost function Contents(): Writer
      reads this
    {
      Writer(statusSet, statuses, body)
    }

    method WriteHeader(status: int)
      modifies this
      ensures Contents() == FailoverSpec.WriteHeader(old(Contents()), status)
    {
      statuses := statuses + [status];
    }

    method Write(segment: Segment)
      modifies this
      ensures Contents() == FailoverSpec.Write(old(Contents()), segment)
    {
      if statuses == [] {
        WriteHeader(200);
      }
      body := body + [segment];
    }
  }

  method WriteJSONRPCError(w: ResponseWriter, message: Message, status: int)
    modifies w
    ensures w.Contents() == FailoverSpec.WriteJSONRPCError(old(w.Contents()), message, status)
  {
    if !w.statusSet {
      w.statusSet := true;
      w.WriteHeader(status);
    }
    w.Write(ErrorObject(message));
  }
}
