// The extension's logger: every logger carries a prefix naming where it is
// used, loggers are derived from one another by chaining a further name onto
// the prefix, and every message is written as one line to the single output
// channel that all loggers share.
module Logging {

  /** The five levels the output channel accepts. */
  datatype Level = Trace | Debug | Info | Warn | Error

  /** One line written to the output channel, with the level it was written at. */
  datatype Record = Record(level: Level, line: string)

  /** The prefix of a logger nobody has chained onto. */
  const DefaultPrefix: string := "GLOBAL"

  /** What `prefix` puts between the old prefix and the new name. */
  const Separator: string := " -> "

  /** The prefix of the logger `prefix(next)` derives from a logger whose prefix is `current`. */
  function Extend(current: string, next: string): (r: string)
    ensures |r| == |current| + |Separator| + |next|
    ensures r[..|current|] == current
    ensures r[|current|..|current| + |Separator|] == Separator
    ensures r[|current| + |Separator|..] == next
  {
    current + Separator + next
  }

  /** The line `log` writes for `message` under `prefix`: the prefix in brackets, a space, the message. */
  function Line(prefix: string, message: string): (r: string)
    ensures |r| == |prefix| + |message| + 3
    ensures r[0] == '[' && r[1..|prefix| + 1] == prefix && r[|prefix| + 1..|prefix| + 3] == "] "
    ensures r[|prefix| + 3..] == message
  {
    "[" + prefix + "] " + message
  }

  /**
   * The prefix of the logger reached from one whose prefix is `base` by
   * chaining `names`, first to last: each step extends the prefix built so far.
   */
  function ChainFrom(base: string, names: seq<string>): (r: string)
    ensures |r| >= |base| && r[..|base|] == base
  {
    if names == [] then base
    else
      var c := ChainFrom(base, names[..|names| - 1]);
      assert Extend(c, names[|names| - 1])[..|base|] == c[..|base|];
      Extend(c, names[|names| - 1])
  }

  /** The prefix of the logger reached from a fresh one by chaining `names`. */
  function Chain(names: seq<string>): string
  {
    ChainFrom(DefaultPrefix, names)
  }

  /** The chained names written out flat, each preceded by the separator. */
  function Arrows(names: seq<string>): string
  {
    if names == [] then "" else Separator + names[0] + Arrows(names[1..])
  }

  /** Chaining one more name onto a flat list adds it at the end. */
  lemma {:induction false} ArrowsSnoc(names: seq<string>, next: string)
    ensures Arrows(names + [next]) == Arrows(names) + Separator + next
  {
    if names != [] {
      assert (names + [next])[1..] == names[1..] + [next];
      ArrowsSnoc(names[1..], next);
    }
  }

  /** The prefix after any chain is the starting prefix followed by every name, in order. */
  lemma {:induction false} ChainIsFlat(base: string, names: seq<string>)
    ensures ChainFrom(base, names) == base + Arrows(names)
  {
    if names != [] {
      var init := names[..|names| - 1];
      ChainIsFlat(base, init);
      ArrowsSnoc(init, names[|names| - 1]);
      assert init + [names[|names| - 1]] == names;
    }
  }

  /**
   * Chaining composes: chaining `first` and then `rest` reaches the same
   * prefix as chaining `rest` onto the logger that chaining `first` reached.
   */
  lemma {:induction false} ChainComposes(base: string, first: seq<string>, rest: seq<string>)
    ensures ChainFrom(base, first + rest) == ChainFrom(ChainFrom(base, first), rest)
  {
    if rest == [] {
      assert first + rest == first;
    } else {
      var init := rest[..|rest| - 1];
      ChainComposes(base, first, init);
      assert (first + rest)[..|first + rest| - 1] == first + init;
    }
  }

  /** Two chains give the same line only for the same message. */
  lemma LineDeterminesMessage(prefix: string, m1: string, m2: string)
    requires Line(prefix, m1) == Line(prefix, m2)
    ensures m1 == m2
  {
    assert m1 == Line(prefix, m1)[|prefix| + 3..];
  }

  /** The output channel every logger writes to, as the list of lines written so far. */
  class OutputChannel {
    var records: seq<Record>

    constructor()
      ensures records == []
    {
      records := [];
    }

    /** Writes one line at `level`. */
    method Append(level: Level, line: string)
      modifies this
      ensures records == old(records) + [Record(level, line)]
    {
      records := records + [Record(level, line)];
    }
  }

  class Logger {
    var prefix: string
    /** The shared output channel; every logger derived from this one writes to it too. */
    const channel: OutputChannel

    constructor(channel: OutputChannel)
      ensures prefix == DefaultPrefix && this.channel == channel
    {
      prefix := DefaultPrefix;
      this.channel := channel;
    }

    /**
     * A new logger whose prefix is this one's extended by `next`. This
     * logger is left as it was: the method changes nothing it had before.
     */
    method Prefix(next: string) returns (l: Logger)
      ensures fresh(l) && l.prefix == Extend(prefix, next) && l.channel == channel
    {
      l := new Logger(channel);
      l.prefix := Extend(prefix, next);
    }

    /** Writes exactly one record, the message under this logger's prefix, and nothing else. */
    method Log(level: Level, message: string)
      modifies channel
      ensures channel.records == old(channel.records) + [Record(level, Line(prefix, message))]
    {
      channel.Append(level, Line(prefix, message));
    }

    method Trace(message: string)
      modifies channel
      ensures channel.records == old(channel.records) + [Record(Level.Trace, Line(prefix, message))]
    {
      Log(Level.Trace, message);
    }

    method Debug(message: string)
      modifies channel
      ensures channel.records == old(channel.records) + [Record(Level.Debug, Line(prefix, message))]
    {
      Log(Level.Debug, message);
    }

    method Info(message: string)
      modifies channel
      ensures channel.records == old(channel.records) + [Record(Level.Info, Line(prefix, message))]
    {
      Log(Level.Info, message);
    }

    method Warn(message: string)
      modifies channel
      ensures channel.records == old(channel.records) + [Record(Level.Warn, Line(prefix, message))]
    {
      Log(Level.Warn, message);
    }

    method Error(message: string)
      modifies channel
      ensures channel.records == old(channel.records) + [Record(Level.Error, Line(prefix, message))]
    {
      Log(Level.Error, message);
    }
  }

  /**
   * A fresh logger chained with `first` and then `second`, as the patch
   * installer builds its logger from the file's name and the operation's
   * name: the names follow the default prefix left to right.
   */
  method ChainedLogger(channel: OutputChannel, first: string, second: string) returns (l: Logger)
    ensures fresh(l) && l.channel == channel
    ensures l.prefix == Chain([first, second])
    ensures l.prefix == DefaultPrefix + Separator + first + Separator + second
  {
    var global := new Logger(channel);
    var outer := global.Prefix(first);
    l := outer.Prefix(second);
    assert [first, second][..1] == [first];
    assert [first][..0] == [];
    assert ChainFrom(DefaultPrefix, [first]) == Extend(DefaultPrefix, first);
    assert ChainFrom(DefaultPrefix, [first, second]) == Extend(ChainFrom(DefaultPrefix, [first]), second);
  }
}
