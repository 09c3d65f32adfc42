/** A post on the message board (not a message passed between actors):
    author, text, who liked and disliked it, emoji reactions per user,
    its score and its identifier. */
module MessageBoard {
  import opened StringOrder
  import opened Joining
  import opened Decimal

  /** Identifier of a message that has not been given one yet. */
  const NEW_ID: int := -1

  /** Only `NEW_ID` and positive numbers are used as identifiers. */
  predicate IsAllowedId(id: int)
  {
    id == NEW_ID || id > 0
  }

  /** The documented score: each like adds 2 points, each dislike subtracts 1. */
  function Score(likes: seq<string>, dislikes: seq<string>): int
  {
    2 * |likes| - |dislikes|
  }

  /** The text form of a message with the given state: it opens with the author
      and the text, and closes with the decimal score. */
  function Describe(author: string, message: string, likes: seq<string>, dislikes: seq<string>, points: int): (r: string)
    ensures author + ": " + message + ", liked by : " <= r
    ensures var tail := ", points: " + IntToString(points);
      |tail| <= |r| && r[|r| - |tail|..] == tail
  {
    author + ": " + message
    + ", liked by : " + Join(Sort(likes), ",")
    + ", disliked by : " + Join(Sort(dislikes), ",")
    + ", points: " + IntToString(points)
  }

  /** The text form sees the likers and dislikers only as multisets:
      reordering either list does not change it. */
  lemma DescribeIgnoresOrder(author: string, message: string, likes: seq<string>, dislikes: seq<string>, points: int)
    ensures forall l, d | multiset(l) == multiset(likes) && multiset(d) == multiset(dislikes) ::
      Describe(author, message, l, d, points) == Describe(author, message, likes, dislikes, points)
  {
    forall l, d | multiset(l) == multiset(likes) && multiset(d) == multiset(dislikes)
      ensures Describe(author, message, l, d, points) == Describe(author, message, likes, dislikes, points)
    {
      SortIgnoresOrder(l, likes);
      SortIgnoresOrder(d, dislikes);
    }
  }

  /** A message nobody has liked or disliked shows two empty segments. */
  lemma DescribeUnrated(author: string, message: string, points: int)
    ensures Describe(author, message, [], [], points)
         == author + ": " + message + ", liked by : , disliked by : , points: " + IntToString(points)
  {
  }

  /** The likers appear in sorted order and comma-separated, whatever order they
      were added in (two likers and one disliker, for instance "bob" then "amy"). */
  lemma DescribeSortsNames(author: string, message: string, first: string, second: string, disliker: string, points: int)
    requires Below(first, second)
    ensures Describe(author, message, [second, first], [disliker], points)
         == author + ": " + message + ", liked by : " + (first + "," + second)
            + ", disliked by : " + disliker + ", points: " + IntToString(points)
  {
    var liked := Join(Sort([second, first]), ",");
    var disliked := Join(Sort([disliker]), ",");
    assert liked == first + "," + second by {
      SortTwo(first, second);
      JoinPair(first, second, ",");
    }
    assert disliked == disliker by {
      SortOfSorted([disliker]);
    }
  }

  lemma SortTwo(first: string, second: string)
    requires Below(first, second)
    ensures Sort([second, first]) == [first, second]
  {
    SortOfSorted([first, second]);
    assert multiset([second, first]) == multiset([first, second]);
    SortIgnoresOrder([second, first], [first, second]);
  }

  /** Two messages that differ only in their score have different text forms. */
  lemma DescribeShowsPoints(author: string, message: string, likes: seq<string>, dislikes: seq<string>, p: int, q: int)
    requires Describe(author, message, likes, dislikes, p) == Describe(author, message, likes, dislikes, q)
    ensures p == q
  {
    var prefix := author + ": " + message
      + ", liked by : " + Join(Sort(likes), ",")
      + ", disliked by : " + Join(Sort(dislikes), ",")
      + ", points: ";
    assert (prefix + IntToString(p))[|prefix|..] == IntToString(p);
    assert (prefix + IntToString(q))[|prefix|..] == IntToString(q);
    IntToStringInjective(p, q);
  }

  /** `Emoji` stands for the reaction kinds, whose contents are not modelled. */
  class UserMessage<Emoji(==)> {
    var author: string
    var message: string
    /** Names of the people who like the message, in the order they were added. */
    var likes: seq<string>
    /** Names of the people who dislike the message. */
    var dislikes: seq<string>
    var points: int
    /** Emoji reactions, per user name. */
    var reactions: map<string, set<Emoji>>
    var messageId: int

    /** The identifier is `NEW_ID` or positive. */
    predicate HasAllowedId()
      reads this
    {
      IsAllowedId(messageId)
    }

    /** The stored points agree with the documented score rule. */
    predicate FollowsScoreRule()
      reads this
    {
      points == Score(likes, dislikes)
    }

    constructor (author: string, message: string)
      ensures this.author == author && this.message == message
      ensures likes == [] && dislikes == [] && reactions == map[]
      ensures points == 0 && messageId == NEW_ID
      ensures HasAllowedId() && FollowsScoreRule()
      ensures ToString() == author + ": " + message + ", liked by : , disliked by : , points: 0"
    {
      this.author := author;
      this.message := message;
      likes := [];
      dislikes := [];
      reactions := map[];
      points := 0;
      messageId := NEW_ID;
      DescribeUnrated(author, message, 0);
      assert IntToString(0) == "0";
    }

    /** The text form of the current state, the same for every ordering of the likers
        and of the dislikers. */
    function ToString(): (r: string)
      reads this
      ensures forall l, d | multiset(l) == multiset(likes) && multiset(d) == multiset(dislikes) ::
        r == Describe(author, message, l, d, points)
    {
      DescribeIgnoresOrder(author, message, likes, dislikes, points);
      Describe(author, message, likes, dislikes, points)
    }

    function GetAuthor(): string
      reads this
    {
      author
    }

    function GetMessage(): string
      reads this
    {
      message
    }

    function GetLikes(): seq<string>
      reads this
    {
      likes
    }

    function GetDislikes(): seq<string>
      reads this
    {
      dislikes
    }

    function GetPoints(): int
      reads this
    {
      points
    }

    function GetReactions(): map<string, set<Emoji>>
      reads this
    {
      reactions
    }

    function GetMessageId(): int
      reads this
    {
      messageId
    }

    /** Overwrites the score with whatever value the caller computed; the score rule
        holds afterwards exactly when that value follows it. */
    method SetPoints(newPoints: int)
      modifies this
      ensures GetPoints() == newPoints
      ensures GetAuthor() == old(GetAuthor()) && GetMessage() == old(GetMessage())
      ensures GetLikes() == old(GetLikes()) && GetDislikes() == old(GetDislikes())
      ensures GetReactions() == old(GetReactions()) && GetMessageId() == old(GetMessageId())
      ensures FollowsScoreRule() <==> newPoints == Score(likes, dislikes)
      ensures HasAllowedId() == old(HasAllowedId())
    {
      points := newPoints;
    }

    /** Overwrites the identifier without any check; the identifier rule holds
        afterwards exactly when the new identifier is `NEW_ID` or positive. */
    method SetMessageId(id: int)
      modifies this
      ensures GetMessageId() == id
      ensures GetAuthor() == old(GetAuthor()) && GetMessage() == old(GetMessage())
      ensures GetLikes() == old(GetLikes()) && GetDislikes() == old(GetDislikes())
      ensures GetReactions() == old(GetReactions()) && GetPoints() == old(GetPoints())
      ensures HasAllowedId() <==> IsAllowedId(id)
      ensures FollowsScoreRule() == old(FollowsScoreRule())
    {
      messageId := id;
    }
  }

  /** A new post, published under a positive identifier and scored by the
      controller: the accessors show the last values written and nothing else. */
  method PublishScenario<Emoji(==)>(author: string, text: string, id: int) returns (m: UserMessage<Emoji>)
    requires id > 0
    ensures m.GetAuthor() == author && m.GetMessage() == text
    ensures m.GetMessageId() == id && m.GetPoints() == 2
    ensures m.GetLikes() == [] && m.GetDislikes() == [] && m.GetReactions() == map[]
    ensures m.HasAllowedId() && !m.FollowsScoreRule()
    ensures m.ToString() == author + ": " + text + ", liked by : , disliked by : , points: 2"
  {
    m := new UserMessage(author, text);
    m.SetMessageId(id);
    m.SetPoints(2);
    DescribeUnrated(author, text, 2);
    assert IntToString(2) == "2";
  }
}
