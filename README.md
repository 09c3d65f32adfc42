# UserMessage: a post on the message board

This project models `UserMessage`, the entity that stands for one post on
the message board (not a message passed between actors). A post holds its
author and its text, the ordered lists of users who liked and who disliked
it, a map from user name to the set of emoji that user reacted with, an
integer score and an identifier. The identifier is `NEW_ID` (−1) until the
post is given a positive one. The score rule (+2 per like, −1 per dislike)
is documented on the field, but the entity does not enforce it: whoever
changes the likes writes the new score through `setPoints`.

Layout, one module per concern:

- `user_message.dfy`, module `MessageBoard`: the constant `NEW_ID`, the
  identifier rule `IsAllowedId`, the score rule `Score`, the text form
  `Describe`, and the class `UserMessage<Emoji>`. The class has the
  source's fields, its constructor, `ToString`, the getters and the two
  setters. The getters are functions that read `this`. The setters' contracts
  are written in terms of the getters: after a setter, every getter
  returns the value last written and nothing else has changed.
- `string_order.dfy`, module `StringOrder`: `Below`, the lexicographic
  order that `String.compareTo` gives (a proper prefix comes first). It is
  proved to be a total order. `Sort` is an insertion sort standing for
  `Stream.sorted()`, proved to return a sorted permutation of its input.
  `SortedUnique` proves that a multiset has only one sorted arrangement.
  So the library's own sort and this one cannot give different lists.
- `joining.dfy`, module `Joining`: `Join`, standing for
  `Collectors.joining(sep)`, and `Split` on one separator character as
  its partner, with round trips both ways.
- `decimal.dfy`, module `Decimal`: `IntToString`, the decimal text Java
  writes when an `int` is appended to a string (a minus sign for negative
  numbers, no leading zeros). Its partner is the parser `ParseInt`, with a
  round-trip lemma and injectivity.

The emoji vocabulary (`Reaction.Emoji`) is the class's type parameter
`Emoji`.

The comment on the identifier field states the invariant "only NEW and
positive IDs are used"; `setMessageId` does not check it. It stores any
value, and nothing in the class refuses a second assignment either.
`SetMessageId` therefore has no precondition. Its contract says that the
identifier rule holds afterwards exactly when the new value is `NEW_ID` or
positive.

The getters return the live lists and map, not copies. The model reads
them as values (see Left out).

## Model

| member | source | states |
|---|---|---|
| MessageBoard.NEW_ID | Framework/src/main/java/at/tugraz/ist/qs2022/messageboard/UserMessage.java:21 | the identifier of a message that has none yet, −1 |
| MessageBoard.Describe | Framework/src/main/java/at/tugraz/ist/qs2022/messageboard/UserMessage.java:90-95 | the toString template over sorted, comma-joined likers and dislikers: the text opens with `"<author>: <text>, liked by : "` and closes with `", points: "` and the decimal score |
| MessageBoard.UserMessage.GetAuthor | Framework/src/main/java/at/tugraz/ist/qs2022/messageboard/UserMessage.java:97-99 | returns the current author; reads only |
| MessageBoard.UserMessage.GetMessage | Framework/src/main/java/at/tugraz/ist/qs2022/messageboard/UserMessage.java:101-103 | returns the current text; reads only |
| MessageBoard.UserMessage.GetLikes | Framework/src/main/java/at/tugraz/ist/qs2022/messageboard/UserMessage.java:105-107 | returns the current likers as a value (aliasing left out); reads only |
| MessageBoard.UserMessage.GetDislikes | Framework/src/main/java/at/tugraz/ist/qs2022/messageboard/UserMessage.java:109-111 | returns the current dislikers as a value (aliasing left out); reads only |
| MessageBoard.UserMessage.GetPoints | Framework/src/main/java/at/tugraz/ist/qs2022/messageboard/UserMessage.java:113-115 | returns the current score; reads only |
| MessageBoard.UserMessage.GetReactions | Framework/src/main/java/at/tugraz/ist/qs2022/messageboard/UserMessage.java:121-123 | returns the current reactions map as a value (aliasing left out); reads only |
| MessageBoard.UserMessage.GetMessageId | Framework/src/main/java/at/tugraz/ist/qs2022/messageboard/UserMessage.java:126-128 | returns the current identifier; reads only |
| StringOrder.Below | Framework/src/main/java/at/tugraz/ist/qs2022/messageboard/UserMessage.java:91 | the natural order of `String` that `sorted()` uses: lexicographic by character, and a prefix comes no later than any extension of it |
| MessageBoard.IsAllowedId | Framework/src/main/java/at/tugraz/ist/qs2022/messageboard/UserMessage.java:52-57 | the documented identifier rule: an identifier is `NEW_ID` or positive |
| MessageBoard.UserMessage.HasAllowedId | Framework/src/main/java/at/tugraz/ist/qs2022/messageboard/UserMessage.java:52-57 | the identifier rule applied to the message's current identifier |
| MessageBoard.Score | Framework/src/main/java/at/tugraz/ist/qs2022/messageboard/UserMessage.java:45-50 | the documented score rule: 2 points per like, minus 1 per dislike, so 0 for a new message |
| MessageBoard.UserMessage.FollowsScoreRule | Framework/src/main/java/at/tugraz/ist/qs2022/messageboard/UserMessage.java:45-50 | the stored points equal the score rule applied to the current likes and dislikes |
| Joining.Join | Framework/src/main/java/at/tugraz/ist/qs2022/messageboard/UserMessage.java:91-93 | the names in order with the separator between neighbours; `""` for no names, the name itself for one |
| MessageBoard.UserMessage.constructor | Framework/src/main/java/at/tugraz/ist/qs2022/messageboard/UserMessage.java:74-81 | author and text are the arguments; likes, dislikes and reactions are empty; points is 0; the identifier is `NEW_ID`; the identifier rule and the score rule (0 = 2·0 − 0) both hold; the text form is `"<author>: <text>, liked by : , disliked by : , points: 0"` |
| MessageBoard.UserMessage.ToString | Framework/src/main/java/at/tugraz/ist/qs2022/messageboard/UserMessage.java:89-95 | the text form of the current state is the same for every reordering of the likers and of the dislikers |
| MessageBoard.UserMessage.SetPoints | Framework/src/main/java/at/tugraz/ist/qs2022/messageboard/UserMessage.java:113-119 | `GetPoints()` returns the new value; author, text, likes, dislikes, reactions and identifier are unchanged; the score rule holds afterwards exactly when the value written equals 2·likes − dislikes; the identifier rule is unaffected |
| MessageBoard.UserMessage.SetMessageId | Framework/src/main/java/at/tugraz/ist/qs2022/messageboard/UserMessage.java:126-132 | `GetMessageId()` returns the new value and every other getter is unchanged; the rule "only NEW and positive IDs" holds afterwards exactly when the new value is `NEW_ID` or positive; the score rule is unaffected |
| MessageBoard.PublishScenario | Framework/src/main/java/at/tugraz/ist/qs2022/messageboard/UserMessage.java:97-132 | construct, assign a positive identifier, write a score: every getter shows the last value written; the identifier rule holds; a score written without likes breaks the score rule (the entity does not enforce it) |
| MessageBoard.DescribeIgnoresOrder | Framework/src/main/java/at/tugraz/ist/qs2022/messageboard/UserMessage.java:91-93 | the text form depends on the likers and dislikers only as multisets |
| MessageBoard.DescribeUnrated | Framework/src/main/java/at/tugraz/ist/qs2022/messageboard/UserMessage.java:90-95 | with no likes and no dislikes, both joined segments are empty: `"<a>: <m>, liked by : , disliked by : , points: <p>"`, which the constructor instantiates with 0 |
| MessageBoard.DescribeSortsNames | Framework/src/main/java/at/tugraz/ist/qs2022/messageboard/UserMessage.java:90-95 | two likers added out of order (the later one first), and one disliker, appear in the template as `first,second` in sorted order, with the disliker and the decimal points after them |
| MessageBoard.SortTwo | Framework/src/main/java/at/tugraz/ist/qs2022/messageboard/UserMessage.java:91 | sorting two names that are out of order swaps them |
| MessageBoard.DescribeShowsPoints | Framework/src/main/java/at/tugraz/ist/qs2022/messageboard/UserMessage.java:94 | two states that differ only in the score have different text forms |
| StringOrder.BelowReflexive | Framework/src/main/java/at/tugraz/ist/qs2022/messageboard/UserMessage.java:91 | every name is below itself (a corollary of `Below`'s prefix clause) |
| StringOrder.BelowAntisymmetric | Framework/src/main/java/at/tugraz/ist/qs2022/messageboard/UserMessage.java:91 | two names each below the other are equal |
| StringOrder.BelowTransitive | Framework/src/main/java/at/tugraz/ist/qs2022/messageboard/UserMessage.java:91 | the name order is transitive |
| StringOrder.BelowTotal | Framework/src/main/java/at/tugraz/ist/qs2022/messageboard/UserMessage.java:91 | any two names are comparable |
| StringOrder.Insert | Framework/src/main/java/at/tugraz/ist/qs2022/messageboard/UserMessage.java:91-92 | inserting into a sorted list keeps it sorted and adds exactly that one element |
| StringOrder.Sort | Framework/src/main/java/at/tugraz/ist/qs2022/messageboard/UserMessage.java:91-92 | the result is sorted and is a permutation (same multiset) of the input |
| StringOrder.SortedUnique | Framework/src/main/java/at/tugraz/ist/qs2022/messageboard/UserMessage.java:91-92 | two sorted lists with the same multiset of names are equal |
| StringOrder.SortedHeads | Framework/src/main/java/at/tugraz/ist/qs2022/messageboard/UserMessage.java:91-92 | the first element of a sorted list is below the first element of any sorted list with the same multiset |
| StringOrder.SortIgnoresOrder | Framework/src/main/java/at/tugraz/ist/qs2022/messageboard/UserMessage.java:91-92 | lists with the same multiset sort to the same list |
| StringOrder.SortOfSorted | Framework/src/main/java/at/tugraz/ist/qs2022/messageboard/UserMessage.java:91-92 | sorting a sorted list leaves it unchanged |
| Joining.Split | Framework/src/main/java/at/tugraz/ist/qs2022/messageboard/UserMessage.java:91-93 | models nothing in the source: it is the inverse of `Join`, used to state Join's round trips; splitting always gives at least one piece, and no piece contains the separator |
| Joining.JoinSplit | Framework/src/main/java/at/tugraz/ist/qs2022/messageboard/UserMessage.java:91-93 | joining the pieces of a split with the same separator gives back the text |
| Joining.SplitJoin | Framework/src/main/java/at/tugraz/ist/qs2022/messageboard/UserMessage.java:91-93 | a non-empty list of names free of the comma is recovered by splitting its joined form |
| Joining.JoinPair | Framework/src/main/java/at/tugraz/ist/qs2022/messageboard/UserMessage.java:91-93 | two names are joined with exactly one separator between them |
| Decimal.NatToString | Framework/src/main/java/at/tugraz/ist/qs2022/messageboard/UserMessage.java:94 | a non-empty string of digits with no leading zero, and `"0"` for zero |
| Decimal.IntToString | Framework/src/main/java/at/tugraz/ist/qs2022/messageboard/UserMessage.java:94 | a leading minus sign exactly for negative values, followed by digits with no leading zero |
| Decimal.ParseIntToString | Framework/src/main/java/at/tugraz/ist/qs2022/messageboard/UserMessage.java:94 | the printed number parses back to the same value |
| Decimal.IntToStringInjective | Framework/src/main/java/at/tugraz/ist/qs2022/messageboard/UserMessage.java:94 | different numbers print differently |

## Left out

- `Reaction.Emoji` is not part of this model. It is the type parameter `Emoji`.
- Aliasing: `getLikes`, `getDislikes` and `getReactions` return the live Java collections, so a caller can change the post through them. The getters here are value reads. The actor and command layer that changes posts that way is not part of this model.
- Toggling likes, dislikes and reactions and recomputing the score are not operations of this class. They belong to a controller that is not part of this model. The score rule is a predicate (`FollowsScoreRule`) that the setters' contracts mention. The class does not enforce it.
- MessageBoard.UserMessage.SetPoints: `points` is an unbounded `int`. The model does not capture the 32-bit range of `newPoints` and `points`.
- MessageBoard.UserMessage.SetMessageId: `messageId` is an unbounded `int`. The model does not capture Java's 64-bit `long` range.
- StringOrder.Below: it compares Dafny `char`s, which are Unicode scalar values. `String.compareTo` compares UTF-16 code units. The two orders differ only on characters outside the Basic Multilingual Plane.
- Null author, text or list elements cannot occur with Dafny strings. In Java a `null` author or text prints as `"null"` through string concatenation. A list with a single `null` name also prints it as `"null"`, because a stream of fewer than two elements is sorted without comparing anything and `Collectors.joining` appends `"null"`. Only a list of two or more names that includes a `null` makes `toString` throw a `NullPointerException`. None of this is modelled.
- `hashCode`, `equals`, and the `ArrayList`/`HashMap` implementations are not modelled.
