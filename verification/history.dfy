/** The recent-key history as a value: a bounded FIFO of at most
    HistorySize keys, most recent last, that evicts its oldest key when a
    key is pushed onto a full history. */
module KeyHistory {

  /** Capacity of the history (the buffer holds one more slot for NUL). */
  const HistorySize: nat := 12

  /** The last HistorySize elements of s (all of s when it is shorter). */
  function Window(s: seq<char>): seq<char>
  {
    if |s| <= HistorySize then s else s[|s| - HistorySize..]
  }

  /** Pushing one key: append while there is room, otherwise drop the oldest
      key and append. */
  function Pushed(h: seq<char>, k: char): (r: seq<char>)
    requires |h| <= HistorySize
    ensures r == Window(h + [k])
    ensures |r| <= HistorySize && r[|r| - 1] == k
  {
    if |h| < HistorySize then h + [k] else h[1..] + [k]
  }

  /** Taking the window early loses nothing that a later window keeps. */
  lemma WindowOfWindow(s: seq<char>, t: seq<char>)
    ensures Window(Window(s) + t) == Window(s + t)
  {
    if |s| > HistorySize {
      var cut := |s| - HistorySize;
      assert Window(s) + t == (s + t)[cut..];
      var u := (s + t)[cut..];
      if |u| > HistorySize {
        assert u[|u| - HistorySize..] == (s + t)[|s + t| - HistorySize..];
      }
    }
  }

  /** WindowOfWindow for a history built in two stages. */
  lemma WindowChain(h0: seq<char>, h1: seq<char>, h2: seq<char>, a: seq<char>, b: seq<char>)
    requires h1 == Window(h0 + a) && h2 == Window(h1 + b)
    ensures h2 == Window(h0 + (a + b))
  {
    WindowOfWindow(h0 + a, b);
    assert h0 + a + b == h0 + (a + b);
  }

  /** Pushing keys one at a time onto a history keeps exactly the last
      HistorySize keys of everything that was pushed. */
  function PushAll(h: seq<char>, ks: seq<char>): (r: seq<char>)
    requires |h| <= HistorySize
    ensures |r| <= HistorySize
    decreases |ks|
  {
    if ks == [] then h else PushAll(Pushed(h, ks[0]), ks[1..])
  }

  lemma {:induction false} PushAllIsWindow(h: seq<char>, ks: seq<char>)
    requires |h| <= HistorySize
    ensures PushAll(h, ks) == Window(h + ks)
    decreases |ks|
  {
    if ks != [] {
      PushAllIsWindow(Pushed(h, ks[0]), ks[1..]);
      WindowChain(h, Pushed(h, ks[0]), PushAll(h, ks), [ks[0]], ks[1..]);
      assert [ks[0]] + ks[1..] == ks;
    }
  }
}
