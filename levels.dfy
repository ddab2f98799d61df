/**
 * Logger.Level: the severities a message can carry, ordered by declaration
 * position, least important first (Logger.java:186-215).
 */
module Levels {

  datatype Level = STACKTRACE | TRACE | DEBUG | INFO | WARNING | ERROR | FATAL

  /** Level.ordinal(): the declaration position, 0 for STACKTRACE up to 6 for FATAL. */
  function Rank(l: Level): (r: nat)
    ensures r < 7
  {
    match l
    case STACKTRACE => 0
    case TRACE => 1
    case DEBUG => 2
    case INFO => 3
    case WARNING => 4
    case ERROR => 5
    case FATAL => 6
  }

  /**
   * Level.toString(): an enum constant prints as its declared name, a
   * non-empty run of upper-case letters, so it cannot break a record line.
   */
  function Name(l: Level): (s: string)
    ensures |s| > 0
    ensures forall k :: 0 <= k < |s| ==> 'A' <= s[k] <= 'Z'
  {
    match l
    case STACKTRACE => "STACKTRACE"
    case TRACE => "TRACE"
    case DEBUG => "DEBUG"
    case INFO => "INFO"
    case WARNING => "WARNING"
    case ERROR => "ERROR"
    case FATAL => "FATAL"
  }

  /** Ordinals identify levels: two levels of equal rank are the same level. */
  lemma RankInjective(a: Level, b: Level)
    ensures Rank(a) == Rank(b) <==> a == b
  {
  }

  /** The declaration order is total and agrees with the order of ranks. */
  lemma DeclarationOrder()
    ensures Rank(STACKTRACE) < Rank(TRACE) < Rank(DEBUG) < Rank(INFO)
    ensures Rank(INFO) < Rank(WARNING) < Rank(ERROR) < Rank(FATAL)
  {
  }
}
