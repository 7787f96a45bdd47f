/**
 * A named forwarder of the proxy package: its validated construction (New)
 * and the guards of Run and Stop on its `running` flag.
 *
 * Sockets and goroutines are not modelled. Run receives the result of
 * binding the local address as a parameter; Stop ends with the forwarder
 * stopped, which the source reaches when its accept loop reports done.
 */
module Proxy {
  import opened Errors
  import opened Address

  /**
   * The configuration New stores and nothing later changes. The timeout is a
   * time.Duration in nanoseconds; the logger is not modelled.
   */
  datatype Config = Config(name: string, local: string, remote: string, timeout: int, failFast: bool)

  /**
   * New's validation: normalise local, then remote, then require a positive
   * timeout. On success the result is what the Proxy literal is built from.
   */
  function New(name: string, local: string, remote: string, timeout: int, failFast: bool): Result<Config> {
    match ReAddr(local)
    case Err(e) => Err(e)
    case Ok(l) =>
      match ReAddr(remote)
      case Err(e) => Err(e)
      case Ok(r) =>
        if timeout <= 0 then Err(ErrTimeout)
        else Ok(Config(name, l, r, timeout, failFast))
  }

  /** A bad local address is reported first, whatever the remote and the timeout. */
  lemma NewLocalFirst(name: string, local: string, remote: string, timeout: int, failFast: bool)
    requires ReAddr(local).Err?
    ensures New(name, local, remote, timeout, failFast) == Err(ReAddr(local).error)
  {
  }

  /** With a good local address, a bad remote one is reported next, whatever the timeout. */
  lemma NewRemoteSecond(name: string, local: string, remote: string, timeout: int, failFast: bool)
    requires ReAddr(local).Ok? && ReAddr(remote).Err?
    ensures New(name, local, remote, timeout, failFast) == Err(ReAddr(remote).error)
  {
  }

  /** errTimeout comes back exactly when both addresses are good and the timeout is not positive. */
  lemma NewTimeout(name: string, local: string, remote: string, timeout: int, failFast: bool)
    ensures New(name, local, remote, timeout, failFast) == Err(ErrTimeout) <==>
              ReAddr(local).Ok? && ReAddr(remote).Ok? && timeout <= 0
  {
    if ReAddr(local).Err? {
      ReAddrErrors(local);
    } else if ReAddr(remote).Err? {
      ReAddrErrors(remote);
    }
  }

  /**
   * New succeeds exactly when both addresses are good and the timeout is
   * positive; the configuration then holds the normalised addresses, which
   * are themselves already normal.
   */
  lemma NewSuccess(name: string, local: string, remote: string, timeout: int, failFast: bool)
    ensures var r := New(name, local, remote, timeout, failFast);
            r.Ok? <==> ReAddr(local).Ok? && ReAddr(remote).Ok? && timeout > 0
    ensures var r := New(name, local, remote, timeout, failFast);
            r.Ok? ==>
              && r.value == Config(name, ReAddr(local).value, ReAddr(remote).value, timeout, failFast)
              && ReAddr(r.value.local) == Ok(r.value.local)
              && ReAddr(r.value.remote) == Ok(r.value.remote)
  {
    if ReAddr(local).Ok? && ReAddr(remote).Ok? {
      ReAddrIdempotent(local);
      ReAddrIdempotent(remote);
    }
  }

  /** The *Proxy of the source: a configuration and the `running` flag its methods guard. */
  class Proxy {
    const config: Config
    var running: bool

    /** The Proxy literal New returns: idle. */
    constructor (config: Config)
      ensures this.config == config && !running
    {
      this.config := config;
      running := false;
    }

    /**
     * Run: rejected, changing nothing, while running. Otherwise `listen` is
     * what net.Listen on the local address gives; the proxy is running
     * exactly when that succeeded, and its error is returned otherwise.
     */
    method Run(listen: Option<Error>) returns (err: Option<Error>)
      modifies this
      ensures old(running) ==> err == Some(AlreadyRunning(config.name)) && running
      ensures !old(running) ==> err == listen && running == listen.None?
    {
      if running {
        return Some(AlreadyRunning(config.name));
      }
      if listen.Some? {
        return listen;
      }
      running := true;
      return None;
    }

    /**
     * Stop: rejected, changing nothing, when not running. Otherwise the
     * accept loop is told to finish and the proxy ends up stopped.
     */
    method Stop() returns (err: Option<Error>)
      modifies this
      ensures !old(running) ==> err == Some(AlreadyDone(config.name))
      ensures old(running) ==> err == None
      ensures !running
    {
      if !running {
        return Some(AlreadyDone(config.name));
      }
      running := false;
      return None;
    }
  }
}
