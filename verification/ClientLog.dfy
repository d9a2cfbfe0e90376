/** The life of client descriptors: opened by `accept`, sent at most one hardware address, closed. */
module ClientLog {
  import opened ArpSpec

  datatype Status = Idle | Waiting | Served

  /** Where a descriptor stands after the logged calls. */
  function StatusOf(log: seq<Event>, fd: int): Status {
    if log == [] then Idle
    else
      var last := log[|log| - 1];
      if last.fd != fd then StatusOf(log[..|log| - 1], fd)
      else match last
        case Accepted(_) => Waiting
        case Answered(_, _, _) => Served
        case Closed(_) => Idle
  }

  /** Every call found its descriptor in the right status: `accept` returned an idle one, only a waiting
      client was answered, only an open one was closed. */
  predicate Legal(log: seq<Event>) {
    log == [] ||
    (var init, last := log[..|log| - 1], log[|log| - 1];
     Legal(init) && Allowed(StatusOf(init, last.fd), last))
  }

  predicate Allowed(st: Status, ev: Event) {
    match ev
    case Accepted(_) => st == Idle
    case Answered(_, _, _) => st == Waiting
    case Closed(_) => st != Idle
  }

  lemma StatusAppend(log: seq<Event>, ev: Event)
    ensures forall fd :: fd != ev.fd ==> StatusOf(log + [ev], fd) == StatusOf(log, fd)
    ensures StatusOf(log + [ev], ev.fd) == (if ev.Accepted? then Waiting else if ev.Answered? then Served else Idle)
    ensures Legal(log + [ev]) <==> Legal(log) && Allowed(StatusOf(log, ev.fd), ev)
  {
    assert (log + [ev])[..|log|] == log;
  }

  lemma {:induction false} LegalPrefix(log: seq<Event>, n: nat)
    requires Legal(log) && n <= |log|
    ensures Legal(log[..n])
    decreases |log|
  {
    if n == |log| {
      assert log[..n] == log;
    } else {
      LegalPrefix(log[..|log| - 1], n);
      assert log[..|log| - 1][..n] == log[..n];
    }
  }

  /** Without a new `accept`, a descriptor that is not waiting does not become so. */
  lemma {:induction false} StaysNotWaiting(log: seq<Event>, fd: int, a: nat, b: nat)
    requires a <= b <= |log|
    requires StatusOf(log[..a], fd) != Waiting
    requires forall k :: a <= k < b ==> log[k] != Accepted(fd)
    ensures StatusOf(log[..b], fd) != Waiting
    decreases b
  {
    if a < b {
      StaysNotWaiting(log, fd, a, b - 1);
      assert log[..b] == log[..b - 1] + [log[b - 1]];
      StatusAppend(log[..b - 1], log[b - 1]);
    }
  }

  /** Between an answer or a close on a descriptor and a later answer on it there is an `accept` that
      returned it again: one answer per accepted client, none after the close. */
  lemma OneAnswerPerAccept(log: seq<Event>, fd: int, i: nat, j: nat)
    requires Legal(log) && i < j < |log|
    requires log[i].fd == fd && !log[i].Accepted?
    requires log[j].fd == fd && log[j].Answered?
    ensures exists k :: i < k < j && log[k] == Accepted(fd)
  {
    LegalPrefix(log, j + 1);
    assert log[..j + 1] == log[..j] + [log[j]];
    StatusAppend(log[..j], log[j]);
    assert log[..i + 1] == log[..i] + [log[i]];
    StatusAppend(log[..i], log[i]);
    if forall k :: i < k < j ==> log[k] != Accepted(fd) {
      StaysNotWaiting(log, fd, i + 1, j);
    }
  }
}
