/**
 * The serialised form as a stream of tokens: 64-bit words, and the entity
 * table, whose encoding belongs to a foreign library and stays abstract.
 */
module Stream {
  import opened Results
  import opened Entities

  datatype Token =
    | Word(value: nat)
    | EntityTable(table: map<Entity, IndexedEntity>)

  /** The words of `ns`, one token each. */
  function Words(ns: seq<nat>): seq<Token> {
    seq(|ns|, i requires 0 <= i < |ns| => Word(ns[i]))
  }

  /** Reads one word; fails at the end of the stream or on a non-word token. */
  function ReadWord(ts: seq<Token>): (r: Option<(nat, seq<Token>)>)
    ensures r.Some? <==> |ts| > 0 && ts[0].Word?
    ensures r.Some? ==> [Word(r.value.0)] + r.value.1 == ts
  {
    if |ts| > 0 && ts[0].Word? then Some((ts[0].value, ts[1..])) else None
  }

  /** Reads `n` words in order, as the Rust code's read loop does. */
  function ReadWords(ts: seq<Token>, n: nat): (r: Option<(seq<nat>, seq<Token>)>)
    ensures r.Some? <==> n <= |ts| && forall i | 0 <= i < n :: ts[i].Word?
    ensures r.Some? ==> |r.value.0| == n && Words(r.value.0) + r.value.1 == ts
    decreases n
  {
    if n == 0 then Some(([], ts))
    else
      match ReadWord(ts)
      case None => None
      case Some((w, rest)) =>
        match ReadWords(rest, n - 1)
        case None => None
        case Some((ws, rest')) => Some(([w] + ws, rest'))
  }

  /** Reading back written words returns them and leaves the rest untouched. */
  lemma {:induction false} ReadWordsOfWords(ns: seq<nat>, rest: seq<Token>)
    ensures ReadWords(Words(ns) + rest, |ns|) == Some((ns, rest))
  {
    if ns != [] {
      var ts := Words(ns) + rest;
      assert ts[0] == Word(ns[0]);
      assert ts[1..] == Words(ns[1..]) + rest;
      assert ReadWord(ts) == Some((ns[0], ts[1..]));
      ReadWordsOfWords(ns[1..], rest);
      assert ReadWords(ts[1..], |ns| - 1) == Some((ns[1..], rest));
      assert [ns[0]] + ns[1..] == ns;
    } else {
      assert Words(ns) + rest == rest;
    }
  }
}
