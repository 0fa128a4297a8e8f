/** The authoritative word store a bloom filter falls back on when it
    answers "maybe": an exact set of words plus a count of the queries
    it has answered. */
module Cdn {

  class CDNServer {
    /** The stored words (an unordered set of unique strings). */
    var words: set<string>
    /** How many membership queries the server has answered. */
    var usageCount: nat

    /** A new server stores nothing and has answered no query. */
    constructor ()
      ensures words == {} && usageCount == 0
    {
      words := {};
      usageCount := 0;
    }

    /** Stores `word`; storing a word twice changes nothing. Adding is not a
        query, so the usage count stays as it was. */
    method AddWord(word: string)
      modifies this
      ensures words == old(words) + {word}
      ensures word in old(words) ==> words == old(words)
      ensures usageCount == old(usageCount)
    {
      words := words + {word};
    }

    /** Answers exact membership and counts the query, whatever the answer. */
    method CheckWord(word: string) returns (found: bool)
      modifies this
      ensures found <==> word in old(words)
      ensures words == old(words)
      ensures usageCount == old(usageCount) + 1
    {
      usageCount := usageCount + 1;
      found := word in words;
    }

    /** The number of queries answered so far; changes nothing. */
    method GetUsageCount() returns (count: nat)
      ensures count == usageCount
    {
      count := usageCount;
    }
  }
}
