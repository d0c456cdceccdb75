/** The client's sections under the socket mutex, updating its fields in place; the program's own
    assertions stand in them. */
module ClientSections {
  import opened Bytes
  import opened ClientProtocol

  class ClientImpl {
    var requestsInFlight: nat
    var fromThread: Option<Thread>
    var shouldBeClosed: bool
    var isOpen: bool

    constructor ()
      ensures Sections() == Sock(0, None, false, false)
    {
      requestsInFlight, fromThread, shouldBeClosed, isOpen := 0, None, false, false;
    }

    function Sections(): Sock
      reads this
    {
      Sock(requestsInFlight, fromThread, shouldBeClosed, isOpen)
    }

    /** shutdown_ssl, shutdown_socket and close_socket. */
    method ShutdownAndClose(me: Thread)
      requires MayClose(Sections(), me)
      modifies this`isOpen
      ensures Fields(Sections(), true) == Close(old(Sections()), me)
      ensures !isOpen
    {
      assert requestsInFlight == 0 || fromThread == Some(me);
      if !isOpen {
        return;
      }
      isOpen := false;
    }

    /** The first section of send. */
    method BeginRequest(me: Thread, alive: bool, connect: Connect) returns (going: bool)
      requires MayClose(Sections(), me)
      modifies this
      ensures Fields(Sections(), going) == Setup(old(Sections()), me, alive, connect)
      ensures going <==> (old(isOpen) && alive) || connect.Connected?
      ensures isOpen == (going || connect.leftOpen) && !shouldBeClosed
      ensures going ==> requestsInFlight == old(requestsInFlight) + 1 && fromThread == Some(me)
      ensures !going ==> requestsInFlight == old(requestsInFlight) && fromThread == old(fromThread)
    {
      shouldBeClosed := false;
      var isAlive := false;
      if isOpen {
        isAlive := alive;
        if !isAlive {
          ShutdownAndClose(me);
        }
      }
      if !isAlive {
        if connect.NotConnected? {
          isOpen := connect.leftOpen;
          return false;
        }
        isOpen := true;
      }
      if requestsInFlight > 1 {
        assert fromThread == Some(me);
      }
      requestsInFlight := requestsInFlight + 1;
      fromThread := Some(me);
      return true;
    }

    /** The last section of send. */
    method EndRequest(me: Thread, ret: bool, closeConnection: bool)
      requires requestsInFlight > 0 && MayClose(Sections(), me)
      modifies this
      ensures Fields(Sections(), true) == Finish(old(Sections()), me, ret, closeConnection)
      ensures isOpen == (old(isOpen) && !old(shouldBeClosed) && ret && !closeConnection)
      ensures requestsInFlight == old(requestsInFlight) - 1 && shouldBeClosed == old(shouldBeClosed)
      ensures fromThread == if requestsInFlight == 0 then None else old(fromThread)
    {
      requestsInFlight := requestsInFlight - 1;
      if requestsInFlight <= 0 {
        assert requestsInFlight == 0;
        fromThread := None;
      }
      if shouldBeClosed || closeConnection || !ret {
        ShutdownAndClose(me);
      }
    }

    /** stop: while a request is in flight the socket is only marked; otherwise it is closed here. */
    method StopClient(me: Thread)
      modifies this
      ensures Fields(Sections(), true) == Stop(old(Sections()), me)
      ensures isOpen == (old(isOpen) && old(requestsInFlight) > 0)
      ensures shouldBeClosed == (old(shouldBeClosed) || old(requestsInFlight) > 0)
      ensures requestsInFlight == old(requestsInFlight) && fromThread == old(fromThread)
    {
      if requestsInFlight > 0 {
        shouldBeClosed := true;
        return;
      }
      ShutdownAndClose(me);
    }
  }
}
