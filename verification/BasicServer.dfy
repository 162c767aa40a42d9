/**
 The server that serves one client at a time: it adds up the numbers a client sends until a zero arrives, and
 replies with the sum.
 */
module BasicServer {

  function Sum(numbers: seq<int>): int {
    if numbers == [] then 0 else Sum(numbers[..|numbers| - 1]) + numbers[|numbers| - 1]
  }

  // It is the sum: of one number that number, and of two lists the sum of their sums.
  lemma {:induction false} SumOfAppended(numbers: seq<int>, more: seq<int>)
    ensures Sum([]) == 0 && forall n :: Sum([n]) == n
    ensures Sum(numbers + more) == Sum(numbers) + Sum(more)
  {
    if more == [] {
      assert numbers + more == numbers;
    } else {
      var init := more[..|more| - 1];
      SumOfAppended(numbers, init);
      assert (numbers + more)[..|numbers + more| - 1] == numbers + init;
    }
  }

  // A complete conversation: numbers that are not zero, and then one zero.
  predicate Complete(messages: seq<int>) {
    messages != [] && messages[|messages| - 1] == 0 && 0 !in messages[..|messages| - 1]
  }

  // The replies to a series of complete conversations.
  function Replies(clients: seq<seq<int>>): (replies: seq<int>)
    ensures |replies| == |clients|
  {
    seq(|clients|, k requires 0 <= k < |clients| => Sum(clients[k]))
  }

  /** Serves the clients one after the other. */
  method Serve(clients: seq<seq<int>>) returns (replies: seq<int>)
    requires forall k :: 0 <= k < |clients| ==> Complete(clients[k])
    ensures replies == Replies(clients)
  {
    replies := [];
    var result := 0;
    for k := 0 to |clients|
      invariant replies == Replies(clients)[..k]
    {
      result := 0;
      var read := 0;
      ghost var messages := clients[k];
      assert forall j :: 0 <= j < |messages| - 1 ==> messages[..|messages| - 1][j] == messages[j];
      while true
        invariant read < |messages| && 0 !in messages[..read]
        invariant result == Sum(messages[..read])
        decreases |messages| - read
      {
        var data := clients[k][read];
        assert messages[..read + 1][..read] == messages[..read];
        read := read + 1;
        if data == 0 {
          break;
        }
        result := result + data;
      }
      assert messages[..read] == messages;
      replies := replies + [result];
    }
  }
}
