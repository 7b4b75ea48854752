/**
 * The process-wide logging facade of src/Topshelf/Logging/Logger.cs: one
 * nullable slot holding the active backend, created lazily as a TraceLogger,
 * replaced by UseLogger and emptied by Shutdown.  Each operation is one atomic
 * step (the lock around it is not modelled).
 */
module Logging {
  import opened Wrappers
  import opened TypeNames

  /**
   * A logger backend (ILogger).  Only its identity matters: the facade asks it
   * for named logs and tells it to shut down, and what it does then is its own.
   */
  class Backend {
    const isTraceLogger: bool

    /** new TraceLogger(): the default backend. */
    constructor TraceLogger()
      ensures isTraceLogger
    {
      isTraceLogger := true;
    }

    /** A backend the application builds itself and installs with UseLogger. */
    constructor Supplied()
      ensures !isTraceLogger
    {
      isTraceLogger := false;
    }
  }

  /** The Log a backend hands out for a name: which backend serves it, under which name. */
  datatype Log = Log(backend: Backend, name: string)

  /** The static state of the Logger class. */
  class Logger {
    /** _logger: the active backend, null when none is installed. */
    var logger: Backend?
    /** Every ILogger.Shutdown call the facade has made, oldest first. */
    ghost var shutdownCalls: seq<Backend>

    /** The state at process start: no backend, nothing shut down. */
    constructor ()
      ensures logger == null && shutdownCalls == []
    {
      logger := null;
      shutdownCalls := [];
    }

    /** CreateTraceLogger: installs a new TraceLogger and returns it. */
    method CreateTraceLogger() returns (b: Backend)
      modifies this
      ensures fresh(b) && b.isTraceLogger
      ensures logger == b
      ensures shutdownCalls == old(shutdownCalls)
    {
      b := new Backend.TraceLogger();
      logger := b;
    }

    /**
     * Current: never null; the installed backend unchanged when there is one,
     * otherwise a new TraceLogger that is installed before it is returned.
     */
    method Current() returns (b: Backend)
      modifies this
      ensures old(logger) != null ==> b == old(logger)
      ensures old(logger) == null ==> fresh(b) && b.isTraceLogger
      ensures logger == b
      ensures shutdownCalls == old(shutdownCalls)
    {
      if logger != null {
        b := logger;
      } else {
        b := CreateTraceLogger();
      }
    }

    /** Get(string): the log the current backend gives for name. */
    method GetByName(name: string) returns (log: Log)
      modifies this
      ensures old(logger) != null ==> log.backend == old(logger)
      ensures old(logger) == null ==> fresh(log.backend) && log.backend.isTraceLogger
      ensures log.name == name
      ensures logger == log.backend
      ensures shutdownCalls == old(shutdownCalls)
    {
      var current := Current();
      log := Log(current, name);
    }

    /** Get(Type): the log the current backend gives for the clean name of the type. */
    method GetByType(t: TypeDesc) returns (log: Log)
      modifies this
      ensures old(logger) != null ==> log.backend == old(logger)
      ensures old(logger) == null ==> fresh(log.backend) && log.backend.isTraceLogger
      ensures log.name == Format(t, None)
      ensures logger == log.backend
      ensures shutdownCalls == old(shutdownCalls)
    {
      var name := GetCleanTypeName(t);
      log := GetByName(name);
    }

    /**
     * UseLogger: shuts the installed backend down (once, and no other), then
     * installs logger, which may be null.
     */
    method UseLogger(l: Backend?)
      modifies this
      ensures logger == l
      ensures shutdownCalls == old(shutdownCalls) + (if old(logger) != null then [old(logger)] else [])
    {
      if logger != null {
        shutdownCalls := shutdownCalls + [logger];
      }
      logger := null;
      logger := l;
    }

    /**
     * Shutdown: with a backend installed, shuts it down once and empties the
     * slot; with the slot empty, changes nothing and calls nothing.
     */
    method Shutdown()
      modifies this
      ensures logger == null
      ensures shutdownCalls == old(shutdownCalls) + (if old(logger) != null then [old(logger)] else [])
    {
      if logger != null {
        shutdownCalls := shutdownCalls + [logger];
        logger := null;
      }
    }
  }

  /** With no UseLogger or Shutdown in between, Current returns the same backend every time. */
  method CurrentIsStable(facade: Logger) returns (first: Backend, second: Backend)
    modifies facade
    ensures first == second && facade.logger == first
    ensures old(facade.logger) != null ==> first == old(facade.logger)
    ensures facade.shutdownCalls == old(facade.shutdownCalls)
  {
    first := facade.Current();
    second := facade.Current();
  }

  /** Two Shutdown calls in a row have the effect of one. */
  method ShutdownTwice(facade: Logger)
    modifies facade
    ensures facade.logger == null
    ensures facade.shutdownCalls
      == old(facade.shutdownCalls) + (if old(facade.logger) != null then [old(facade.logger)] else [])
  {
    facade.Shutdown();
    facade.Shutdown();
  }

  /**
   * After UseLogger(b) the next Get is served by b, and the backend installed
   * before was shut down exactly once, before b took over.
   */
  method UseLoggerThenGet(facade: Logger, b: Backend, t: TypeDesc) returns (log: Log)
    modifies facade
    ensures log == Log(b, Format(t, None))
    ensures facade.logger == b
    ensures facade.shutdownCalls
      == old(facade.shutdownCalls) + (if old(facade.logger) != null then [old(facade.logger)] else [])
  {
    facade.UseLogger(b);
    log := facade.GetByType(t);
  }

  /**
   * After Shutdown, the next Get creates a new default backend: a fresh
   * TraceLogger, never the one that was shut down.
   */
  method ShutdownThenGet(facade: Logger, t: TypeDesc) returns (log: Log)
    modifies facade
    ensures fresh(log.backend) && log.backend.isTraceLogger
    ensures log.name == Format(t, None)
    ensures old(facade.logger) != null ==> log.backend != old(facade.logger)
    ensures facade.logger == log.backend
  {
    facade.Shutdown();
    log := facade.GetByType(t);
  }

  /**
   * After UseLogger(null) the slot is empty, so the next Get creates a new
   * default backend, never the one that was replaced.
   */
  method UseNullThenGet(facade: Logger, t: TypeDesc) returns (log: Log)
    modifies facade
    ensures fresh(log.backend) && log.backend.isTraceLogger
    ensures log.name == Format(t, None)
    ensures old(facade.logger) != null ==> log.backend != old(facade.logger)
    ensures facade.shutdownCalls
      == old(facade.shutdownCalls) + (if old(facade.logger) != null then [old(facade.logger)] else [])
  {
    facade.UseLogger(null);
    log := facade.GetByType(t);
  }

  /**
   * An application-built backend, once installed, serves every Get until it is
   * replaced: no default TraceLogger is created while it is installed.
   */
  method InstallSuppliedLogger(facade: Logger, t: TypeDesc) returns (supplied: Backend, log: Log)
    modifies facade
    ensures fresh(supplied) && !supplied.isTraceLogger
    ensures log == Log(supplied, Format(t, None)) && !log.backend.isTraceLogger
    ensures facade.logger == supplied
  {
    supplied := new Backend.Supplied();
    log := UseLoggerThenGet(facade, supplied, t);
  }

}
