/** The prompt history: the newest prompts first, at most fifty of them. The
    timestamp the page reads from `Date.now` is passed in as `now`. */
module PromptHistory {
  import Seqs

  datatype HistoryItem = HistoryItem(timestamp: int, prompt: string)

  /** The number of entries the history keeps. */
  const MaxEntries: nat := 50

  /** `list.slice(0, n)`: the first `n` entries, or all of them when there are fewer. */
  function Take<T>(s: seq<T>, n: nat): (r: seq<T>)
    ensures |r| == if |s| < n then |s| else n
    ensures r == s[..|r|]
  {
    if |s| <= n then s else s[..n]
  }

  /** `addToHistory`: the new entry goes in front with the prompt as given, the old
      entries follow in their order, and only the first fifty are kept, so the
      oldest entry is the one dropped. Equal prompts are not merged. */
  function AddToHistory(history: seq<HistoryItem>, prompt: string, now: int): (r: seq<HistoryItem>)
    ensures 1 <= |r| <= MaxEntries
    ensures |r| == if |history| + 1 < MaxEntries then |history| + 1 else MaxEntries
    ensures r[0] == HistoryItem(now, prompt)
    ensures r[1..] == history[..|r| - 1]
  {
    var all := [HistoryItem(now, prompt)] + history;
    var r := Take(all, MaxEntries);
    assert r[1..] == all[1..|r|];
    r
  }

  /** Adding the same prompt twice gives two entries for it. */
  lemma NoDeduplication(history: seq<HistoryItem>, prompt: string, first: int, second: int)
    ensures var r := AddToHistory(AddToHistory(history, prompt, first), prompt, second);
            |r| >= 2 && r[0] == HistoryItem(second, prompt) && r[1] == HistoryItem(first, prompt)
  {
  }

  /** The entries, added oldest first, one `addToHistory` at a time. */
  function AddAll(history: seq<HistoryItem>, items: seq<HistoryItem>): seq<HistoryItem>
    decreases |items|
  {
    if |items| == 0 then history
    else
      var last := items[|items| - 1];
      AddToHistory(AddAll(history, items[..|items| - 1]), last.prompt, last.timestamp)
  }

  /** One or more additions leave the newest fifty of all entries, newest first:
      the history is a bounded stack. */
  lemma {:induction false} AddAllKeepsNewest(history: seq<HistoryItem>, items: seq<HistoryItem>)
    requires |items| > 0
    ensures AddAll(history, items) == Take(Seqs.Reverse(items) + history, MaxEntries)
    decreases |items|
  {
    var init, last := items[..|items| - 1], items[|items| - 1];
    assert Seqs.Reverse(items) == [last] + Seqs.Reverse(init);
    assert HistoryItem(last.timestamp, last.prompt) == last;
    if |init| == 0 {
      assert Seqs.Reverse(items) + history == [last] + history;
    } else {
      var rest := Seqs.Reverse(init) + history;
      AddAllKeepsNewest(history, init);
      var prev := Take(rest, MaxEntries);
      assert AddToHistory(prev, last.prompt, last.timestamp) == Take([last] + rest, MaxEntries) by {
        assert [last] + prev == ([last] + rest)[..|prev| + 1];
      }
      assert [last] + rest == Seqs.Reverse(items) + history;
    }
  }
}
