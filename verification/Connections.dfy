// The socket under the STOMP client, as the bytes that are still to be read
// and those that were sent. One call moves any part, at least one byte.
module Connections {

  class Connection {
    var incoming: string
    var sent: string

    // apr_socket_recv: fails only at the end of the stream.
    method Recv(limit: nat) returns (ok: bool, chunk: string)
      requires limit > 0
      modifies this`incoming
      ensures ok <==> old(incoming) != ""
      ensures ok ==> 0 < |chunk| <= limit
      ensures old(incoming) == chunk + incoming
    {
      ok, chunk := incoming != "", "";
      if ok {
        var n :| 1 <= n <= limit && n <= |incoming|;
        chunk, incoming := incoming[..n], incoming[n..];
      }
    }

    // apr_socket_send: may also fail, after any part of the data.
    method Send(data: string) returns (ok: bool, n: nat)
      requires data != ""
      modifies this`sent
      ensures n <= |data| && (ok ==> n > 0)
      ensures sent == old(sent) + data[..n]
    {
      ok := *;
      n :| n <= |data| && (ok ==> n > 0);
      sent := sent + data[..n];
    }
  }
}
