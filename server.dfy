/**
 * The server's fixed-capacity connection table: admission into the lowest
 * free slot, refusal when full, release on disconnect, and dispatch of
 * socket events by file descriptor. The three client handlers are
 * collaborators; the calls made to them are recorded in a ghost trace, and
 * what `onConnect` and `onReadData` return is taken as a parameter.
 */
module Server {
  import opened Wrappers

  /** `client_context_t`; `contextData` is the handle `onConnect` returned (None for NULL). */
  datatype Slot = Slot(inUse: bool, clientFd: int, contextData: Option<nat>)

  const FREE_SLOT: Slot := Slot(false, -1, None)

  /** A call into `client_handlers_t`. */
  datatype HandlerCall =
    | OnConnect(fd: int)
    | OnDisconnect(contextData: Option<nat>)
    | OnReadData(fd: int, contextData: Option<nat>)

  /** The condition bits of an epoll event that the dispatch looks at. */
  datatype EventFlags = EventFlags(hup: bool, err: bool, rdhup: bool, readable: bool)

  /** The lowest-index slot not in use. */
  function FirstFree(s: seq<Slot>): (r: Option<nat>)
    ensures r.Some? ==> r.value < |s| && !s[r.value].inUse
    ensures r.Some? ==> forall j :: 0 <= j < r.value ==> s[j].inUse
    ensures r.None? <==> forall j :: 0 <= j < |s| ==> s[j].inUse
  {
    if s == [] then None
    else if !s[0].inUse then Some(0)
    else match FirstFree(s[1..]) {
      case None => None
      case Some(i) => Some(i + 1)
    }
  }

  /** The lowest-index slot whose descriptor is `fd` (in use or not, as the dispatch loop tests). */
  function FindFd(s: seq<Slot>, fd: int): (r: Option<nat>)
    ensures r.Some? ==> r.value < |s| && s[r.value].clientFd == fd
    ensures r.Some? ==> forall j :: 0 <= j < r.value ==> s[j].clientFd != fd
    ensures r.None? <==> forall j :: 0 <= j < |s| ==> s[j].clientFd != fd
  {
    if s == [] then None
    else if s[0].clientFd == fd then Some(0)
    else match FindFd(s[1..], fd) {
      case None => None
      case Some(i) => Some(i + 1)
    }
  }

  function InUseCount(s: seq<Slot>): (r: nat)
    ensures r <= |s|
  {
    if s == [] then 0 else InUseCount(s[..|s| - 1]) + (if s[|s| - 1].inUse then 1 else 0)
  }

  /** A free slot exists exactly when fewer than all slots are in use. */
  lemma {:induction false} FirstFreeIffRoom(s: seq<Slot>)
    ensures FirstFree(s).Some? <==> InUseCount(s) < |s|
    decreases |s|
  {
    if s != [] {
      var n := |s| - 1;
      FirstFreeIffRoom(s[..n]);
      if FirstFree(s).None? {
        assert forall j :: 0 <= j < n ==> s[..n][j].inUse;
      } else if FirstFree(s[..n]).None? {
        assert forall j :: 0 <= j < n ==> s[j] == s[..n][j];
      } else {
        var j := FirstFree(s[..n]).value;
        assert !s[j].inUse;
      }
    }
  }

  /** Claiming a free slot raises the in-use count by one; freeing one lowers it by one. */
  lemma {:induction false} InUseCountUpdate(s: seq<Slot>, i: nat, v: Slot)
    requires i < |s|
    ensures InUseCount(s[i := v]) ==
      InUseCount(s) - (if s[i].inUse then 1 else 0) + (if v.inUse then 1 else 0)
    decreases |s|
  {
    var n := |s| - 1;
    if i < n {
      assert s[i := v][..n] == s[..n][i := v];
      InUseCountUpdate(s[..n], i, v);
    } else {
      assert s[i := v][..n] == s[..n];
    }
  }

  class ServerContext {
    const maxClients: nat
    const slots: array<Slot>
    /** Calls made to the client handlers, oldest first. */
    ghost var trace: seq<HandlerCall>
    /** Descriptors closed by the server, oldest first. */
    ghost var closed: seq<int>

    ghost predicate Valid()
      reads this
    {
      slots.Length == maxClients
    }

    /** The slot table part of `server_create`. */
    constructor Create(maxClients: nat)
      ensures Valid() && fresh(slots) && this.maxClients == maxClients
      ensures forall i :: 0 <= i < maxClients ==> slots[i] == FREE_SLOT
      ensures trace == [] && closed == []
    {
      this.maxClients := maxClients;
      slots := new Slot[maxClients](_ => FREE_SLOT);
      trace := [];
      closed := [];
    }

    /**
     * `server_on_client_connect`: the lowest free slot takes the client and
     * the handle `onConnect(clientFd)` returns (`connectResult`); with no
     * free slot `onConnect` is not called and the descriptor is closed.
     */
    method OnClientConnect(clientFd: int, connectResult: Option<nat>)
      requires Valid()
      modifies slots, this
      ensures Valid()
      ensures var f := FirstFree(old(slots[..]));
        && (f.Some? ==>
              && slots[..] == old(slots[..])[f.value := Slot(true, clientFd, connectResult)]
              && trace == old(trace) + [OnConnect(clientFd)] && closed == old(closed))
        && (f.None? ==>
              && slots[..] == old(slots[..])
              && trace == old(trace) && closed == old(closed) + [clientFd])
    {
      var noRoom := true;
      for i := 0 to maxClients
        invariant forall j :: 0 <= j < i ==> slots[j].inUse
        invariant noRoom && slots[..] == old(slots[..]) && trace == old(trace)
      {
        if !slots[i].inUse {
          noRoom := false;
          trace := trace + [OnConnect(clientFd)];
          slots[i] := Slot(true, clientFd, connectResult);
          assert FirstFree(old(slots[..])) == Some(i);
          return;
        }
      }
      closed := closed + [clientFd];
    }

    /**
     * `server_on_client_disconnect`: hands the slot's context to
     * `onDisconnect`, closes the descriptor and frees the slot; the context
     * handle is left in place.
     */
    method OnClientDisconnect(index: nat)
      requires Valid() && index < maxClients
      modifies slots, this
      ensures Valid()
      ensures trace == old(trace) + [OnDisconnect(old(slots[index].contextData))]
      ensures closed == old(closed) + [old(slots[index].clientFd)]
      ensures slots[..] == old(slots[..])[index := old(slots[index]).(inUse := false, clientFd := -1)]
    {
      trace := trace + [OnDisconnect(slots[index].contextData)];
      closed := closed + [slots[index].clientFd];
      slots[index] := slots[index].(clientFd := -1, inUse := false);
    }

    /**
     * The client-event branch of `server_run`: the first slot with this
     * descriptor is disconnected on hang-up or error, or when `onReadData`
     * (whose result is `readResult`) reports the connection finished.
     */
    method OnClientEvent(fd: int, events: EventFlags, readResult: bool)
      requires Valid()
      modifies slots, this
      ensures Valid()
      ensures var f := FindFd(old(slots[..]), fd);
        && (f.None? ==> slots[..] == old(slots[..]) && trace == old(trace) && closed == old(closed))
        && (f.Some? && (events.hup || events.err || events.rdhup) ==>
              && trace == old(trace) + [OnDisconnect(old(slots[f.value].contextData))]
              && closed == old(closed) + [fd]
              && slots[..] == old(slots[..])[f.value := old(slots[f.value]).(inUse := false, clientFd := -1)])
        && (f.Some? && !(events.hup || events.err || events.rdhup) && events.readable ==>
              var ctx := old(slots[f.value].contextData);
              && trace == old(trace) + [OnReadData(fd, ctx)] + (if readResult then [] else [OnDisconnect(ctx)])
              && closed == old(closed) + (if readResult then [] else [fd])
              && slots[..] == if readResult then old(slots[..])
                              else old(slots[..])[f.value := old(slots[f.value]).(inUse := false, clientFd := -1)])
        && (f.Some? && !(events.hup || events.err || events.rdhup) && !events.readable ==>
              slots[..] == old(slots[..]) && trace == old(trace) && closed == old(closed))
    {
      for i := 0 to maxClients
        invariant forall j :: 0 <= j < i ==> slots[j].clientFd != fd
        invariant slots[..] == old(slots[..]) && trace == old(trace) && closed == old(closed)
      {
        if slots[i].clientFd == fd {
          assert FindFd(old(slots[..]), fd) == Some(i);
          var error := false;
          if events.hup || events.err || events.rdhup {
            error := true;
          } else if events.readable {
            trace := trace + [OnReadData(fd, slots[i].contextData)];
            if !readResult {
              error := true;
            }
          }
          if error {
            OnClientDisconnect(i);
          }
          return;
        }
      }
    }
  }

  /** An admitted connect takes exactly one more slot, so the in-use count never exceeds the table. */
  lemma ConnectTakesOneSlot(s: seq<Slot>, fd: int, ctx: Option<nat>)
    requires FirstFree(s).Some?
    ensures InUseCount(s[FirstFree(s).value := Slot(true, fd, ctx)]) == InUseCount(s) + 1
    ensures InUseCount(s) + 1 <= |s|
  {
    InUseCountUpdate(s, FirstFree(s).value, Slot(true, fd, ctx));
  }

  /** A disconnect of a slot in use gives exactly one slot back. */
  lemma DisconnectFreesOneSlot(s: seq<Slot>, i: nat)
    requires i < |s| && s[i].inUse
    ensures InUseCount(s[i := s[i].(inUse := false, clientFd := -1)]) == InUseCount(s) - 1
  {
    InUseCountUpdate(s, i, s[i].(inUse := false, clientFd := -1));
  }

  /** With every slot taken a connect is refused; after one disconnect the next connect takes that slot. */
  lemma FullTableReusesFreedSlot(s: seq<Slot>, i: nat)
    requires i < |s| && forall j :: 0 <= j < |s| ==> s[j].inUse
    ensures FirstFree(s).None? && InUseCount(s) == |s|
    ensures FirstFree(s[i := s[i].(inUse := false, clientFd := -1)]) == Some(i)
  {
    FirstFreeIffRoom(s);
    var t := s[i := s[i].(inUse := false, clientFd := -1)];
    assert !t[i].inUse;
    assert forall j :: 0 <= j < |t| && j != i ==> t[j].inUse;
    var f := FirstFree(t);
    assert f.Some?;
    assert f.value == i;
  }
}
