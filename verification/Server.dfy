/** `Server` itself (server/internal/server/server.go): the shared fields, and `serveConn` one
    statement on them at a time.  Each method is proved to do what Admission says. */
module Server {
  import opened Admission

  class Server {
    const cfg: Config
    var slots: nat
    var perIp: map<string, int>
    var connTotal: nat
    var connRejected: nat
    var connActive: int

    ghost function Value(): Shared
      reads this
    {
      Shared(slots, perIp, connTotal, connRejected, connActive)
    }

    /** `New` */
    constructor (cfg: Config)
      ensures this.cfg == cfg && Value() == IDLE
    {
      this.cfg := cfg;
      slots, perIp, connTotal, connRejected, connActive := 0, map[], 0, 0, 0;
    }

    method AcquireIp(ip: string) returns (ok: bool)
      modifies this`perIp
      ensures ok <==> cfg.maxPerIp <= 0 || PerIp(old(Value()), ip) < cfg.maxPerIp
      ensures Value() == if ok && cfg.maxPerIp > 0 then Acquired(old(Value()), ip) else old(Value())
    {
      if cfg.maxPerIp <= 0 { return true; }
      var n := if ip in perIp then perIp[ip] else 0;
      if n >= cfg.maxPerIp { return false; }
      perIp := perIp[ip := n + 1];
      ok := true;
    }

    method ReleaseIp(ip: string)
      modifies this`perIp
      ensures Value() == if cfg.maxPerIp <= 0 then old(Value()) else Released(old(Value()), ip)
    {
      if cfg.maxPerIp <= 0 { return; }
      perIp := perIp[ip := (if ip in perIp then perIp[ip] else 0) - 1];
      if perIp[ip] <= 0 { perIp := perIp - {ip}; }
    }

    /** A send on the semaphore that gives up when it is full. */
    method TrySlot() returns (ok: bool)
      modifies this`slots
      ensures ok <==> cfg.maxConns <= 0 || old(slots) < cfg.maxConns
      ensures slots == if ok && cfg.maxConns > 0 then old(slots) + 1 else old(slots)
    {
      ok := true;
      if cfg.maxConns > 0 {
        if slots < cfg.maxConns { slots := slots + 1; } else { ok := false; }
      }
    }

    /** The beginning of `serveConn`. */
    method Start(ip: string) returns (c: Conn)
      modifies this`connTotal
      ensures Value() == old(Value()).(total := old(Value()).total + 1) && c == Conn(ip, Counted)
    {
      connTotal := connTotal + 1;
      c := Conn(ip, Counted);
    }

    /** The next statement of `serveConn` on shared state, deferred calls last made first. */
    method Resume(c: Conn) returns (after: Conn)
      modifies this
      ensures (Value(), after) == Turn(cfg, old(Value()), c)
    {
      var phase := c.phase;
      match c.phase {
        case Counted =>
          var ok := TrySlot();
          phase := if ok then Slotted else NoSlot;
        case NoSlot =>
          connRejected := connRejected + 1;
          phase := Gone(true);
        case Slotted =>
          var ok := AcquireIp(c.ip);
          phase := if ok then Admitted else NoIp;
        case NoIp =>
          connRejected := connRejected + 1;
          phase := Refused;
        case Refused =>
          GiveSlotBack();
          phase := Gone(true);
        case Admitted =>
          connActive := connActive + 1;
          phase := Handling;
        case Handling =>
          connActive := connActive - 1;
          phase := Ending;
        case Ending =>
          ReleaseIp(c.ip);
          phase := Freed;
        case Freed =>
          GiveSlotBack();
          phase := Gone(false);
        case Gone(_) =>
      }
      after := c.(phase := phase);
    }

    method GiveSlotBack()
      modifies this`slots
      ensures Value() == SlotBack(cfg, old(Value()))
    {
      if cfg.maxConns > 0 && slots > 0 { slots := slots - 1; }
    }
  }
}
