/** The logger of lectures/week_10/code: a process-wide `Logger` whose
    hidden `LoggerImpl` maps stream names to shared sinks (logger.cpp), the
    abstract `Sink` it forwards to (sink.hpp), and `getInstance`'s
    function-local static.  A `Sink` here records the messages it receives;
    `StreamSink`, which writes them to standard output, is not modelled. */
module Logging {

  /** `std::map::insert`: a new key is bound to `v`; an existing binding is
      kept and `v` is dropped. */
  function MapInsert<K, V>(m: map<K, V>, k: K, v: V): (r: map<K, V>)
    ensures r.Keys == m.Keys + {k}
    ensures k in m ==> r[k] == m[k]
    ensures k !in m ==> r[k] == v
    ensures forall j | j in m :: r[j] == m[j]
  {
    if k in m then m else m[k := v]
  }

  /** Inserting under a key a second time changes nothing: the first value
      inserted stays bound. */
  lemma MapInsertFirstWins<K, V>(m: map<K, V>, k: K, v: V, w: V)
    ensures MapInsert(MapInsert(m, k, v), k, w) == MapInsert(m, k, v)
    ensures MapInsert(MapInsert(m, k, v), k, w)[k] == if k in m then m[k] else v
  {
  }

  /** A destination for messages: it keeps every message it was given, in
      order. */
  class Sink {
    var messages: seq<string>

    constructor ()
      ensures messages == []
    {
      messages := [];
    }

    /** `print(message)`: the message is received once more. */
    method Print(message: string)
      modifies this
      ensures messages == old(messages) + [message]
    {
      messages := messages + [message];
    }
  }

  /** `Logger::LoggerImpl`. */
  class LoggerImpl {
    var sinks: map<string, Sink>

    /** Defaulted constructor: the map starts empty. */
    constructor ()
      ensures sinks == map[]
    {
      sinks := map[];
    }
  }

  class Logger {
    const mImpl: LoggerImpl

    /** The private `Logger()`: a new implementation with no sinks. */
    constructor ()
      ensures fresh(mImpl) && mImpl.sinks == map[]
    {
      mImpl := new LoggerImpl();
    }

    /** `print(stream, message)`: when `stream` is bound, its sink receives
        the message; nothing else happens, and an unbound name is ignored.
        Two names may share one sink, which then receives the message
        whichever name it was printed under. */
    method Print(stream: string, message: string)
      modifies mImpl.sinks.Values
      ensures mImpl.sinks == old(mImpl.sinks)
      ensures forall s | s in old(mImpl.sinks.Values) ::
        s.messages == old(s.messages) +
          (if stream in old(mImpl.sinks) && old(mImpl.sinks[stream]) == s then [message] else [])
    {
      if stream in mImpl.sinks {
        mImpl.sinks[stream].Print(message);
      }
    }

    /** `addSink(name, sink)`: `std::map::insert`, so a name that is already
        bound keeps its first sink. */
    method AddSink(name: string, sink: Sink)
      modifies mImpl
      ensures mImpl.sinks == MapInsert(old(mImpl.sinks), name, sink)
    {
      mImpl.sinks := MapInsert(mImpl.sinks, name, sink);
    }
  }

  /** The program's static storage: `instance` is the function-local static
      of `getInstance`, null until the first call constructs it. */
  class Process {
    var instance: Logger?

    constructor ()
      ensures instance == null
    {
      instance := null;
    }

    /** `Logger::getInstance`: the first call constructs the logger with no
        sinks; every call returns that same logger. */
    method GetInstance() returns (l: Logger)
      modifies this
      ensures old(instance) != null ==> l == old(instance)
      ensures old(instance) == null ==> fresh(l) && fresh(l.mImpl) && l.mImpl.sinks == map[]
      ensures instance == l
    {
      if instance == null {
        instance := new Logger();
      }
      l := instance;
    }
  }

  /** main.cpp with logger.cpp: "cout" is bound to a sink, main prints
      "Hello World" and `foo` prints "Foo message", each through
      `getInstance`; the sink receives exactly those two, in order. */
  method LoggerDemo() returns (received: seq<string>)
    ensures received == ["Hello World", "Foo message"]
  {
    var process := new Process();
    var sink := new Sink();
    var l1 := process.GetInstance();
    l1.AddSink("cout", sink);
    var l2 := process.GetInstance();
    l2.Print("cout", "Hello World");
    var l3 := process.GetInstance();
    l3.Print("cout", "Foo message");
    received := sink.messages;
  }

  /** A second sink registered under a bound name is never used; printing
      under an unbound name reaches no sink. */
  method FirstBindingDemo() returns (first: seq<string>, second: seq<string>)
    ensures first == ["x"] && second == []
  {
    var process := new Process();
    var l := process.GetInstance();
    var a := new Sink();
    var b := new Sink();
    l.AddSink("cout", a);
    l.AddSink("cout", b);
    l.Print("cout", "x");
    l.Print("cerr", "y");
    first := a.messages;
    second := b.messages;
  }

  /** Each stream's messages reach its own sink only. */
  method RoutingDemo() returns (out: seq<string>, err: seq<string>)
    ensures out == ["1", "3"] && err == ["2"]
  {
    var process := new Process();
    var l := process.GetInstance();
    var a := new Sink();
    var b := new Sink();
    l.AddSink("out", a);
    l.AddSink("err", b);
    l.Print("out", "1");
    l.Print("err", "2");
    l.Print("out", "3");
    out := a.messages;
    err := b.messages;
  }
}
