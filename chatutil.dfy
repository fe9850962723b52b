/**
 * The three derived values of the chat server: the initials and the avatar
 * colour of a profile, and the identifier that a pair of usernames shares.
 */
module ChatUtil {
  import opened Wrappers
  import opened JsStrings

  /** The tokens of a split that are not empty. */
  function Words(tokens: seq<string>): (words: seq<string>)
    ensures forall i :: 0 <= i < |words| ==> words[i] != [] && words[i] in tokens
    ensures [] !in words
    ensures forall w :: w != [] ==> multiset(words)[w] == multiset(tokens)[w]
  {
    if tokens == [] then []
    else
      assert tokens == [tokens[0]] + tokens[1..];
      if tokens[0] == [] then Words(tokens[1..])
      else [tokens[0]] + Words(tokens[1..])
  }

  /** The words of two runs of tokens are the words of each, in order. */
  lemma {:induction false} WordsAppend(a: seq<string>, b: seq<string>)
    ensures Words(a + b) == Words(a) + Words(b)
  {
    if a == [] {
      assert a + b == b;
    } else {
      assert (a + b)[0] == a[0] && (a + b)[1..] == a[1..] + b;
      WordsAppend(a[1..], b);
    }
  }

  /**
   * `tokens.map(word => word[0]).join('')`: an empty token yields `undefined`,
   * which `join` renders as the empty string.
   */
  function Heads(tokens: seq<string>): (r: string)
    ensures |r| <= |tokens|
  {
    if tokens == [] then []
    else (if tokens[0] == [] then [] else [tokens[0][0]]) + Heads(tokens[1..])
  }

  /** The heads are the first characters of the non-empty tokens, in token order. */
  lemma {:induction false} HeadsOfWords(tokens: seq<string>)
    ensures |Heads(tokens)| == |Words(tokens)|
    ensures forall i :: 0 <= i < |Heads(tokens)| ==> Heads(tokens)[i] == Words(tokens)[i][0]
  {
    if tokens != [] {
      HeadsOfWords(tokens[1..]);
    }
  }

  /** `getInitials`: the first character of every `' '`-separated token, upper-cased, at most two. */
  function Initials(name: string): (r: string)
    ensures |r| <= 2
  {
    Prefix(ToUpper(Heads(Split(name, ' '))), 2)
  }

  /**
   * The initials are the upper-cased first characters of the first (at most
   * two) non-empty words of the name, in the order the words appear.
   */
  lemma InitialsOfWords(name: string)
    ensures var words := Words(Split(name, ' '));
      |Initials(name)| == Min(2, |words|) &&
      forall i :: 0 <= i < |Initials(name)| ==> Initials(name)[i] == UpperChar(words[i][0])
  {
    HeadsOfWords(Split(name, ' '));
  }

  /** A name that does not start with a space has initials, led by its own first character. */
  lemma InitialsStart(name: string)
    requires name != [] && name[0] != ' '
    ensures Initials(name) != [] && Initials(name)[0] == UpperChar(name[0])
  {
    var tokens := Split(name, ' ');
    var rest := Split(name[1..], ' ');
    assert tokens[0] == [name[0]] + rest[0];
    assert Heads(tokens)[0] == name[0];
  }

  /** The six avatar backgrounds, in palette order. */
  const PALETTE: seq<string> := [
    "linear-gradient(135deg, #667eea 0%, #764ba2 100%)",
    "linear-gradient(135deg, #f093fb 0%, #f5576c 100%)",
    "linear-gradient(135deg, #4facfe 0%, #00f2fe 100%)",
    "linear-gradient(135deg, #43e97b 0%, #38f9d7 100%)",
    "linear-gradient(135deg, #fa709a 0%, #fee140 100%)",
    "linear-gradient(135deg, #30cfd0 0%, #330867 100%)"
  ]

  /**
   * `getAvatarColor`: the palette entry at the first character's code modulo
   * six. For the empty name `charCodeAt(0)` is NaN and the lookup `undefined`.
   */
  function AvatarColor(name: string): (r: Option<string>)
    ensures r.Some? <==> name != []
    ensures r.Some? ==> r.value in PALETTE
  {
    if name == [] then None else Some(PALETTE[(name[0] as int) % |PALETTE|])
  }

  /** The colour depends on the first character only. */
  lemma AvatarColorOfFirst(a: string, b: string)
    requires a != [] && b != [] && a[0] == b[0]
    ensures AvatarColor(a) == AvatarColor(b)
  {
  }

  /** `[user1, user2].sort()`: the default comparison swaps the pair only when the second is smaller. */
  function SortPair(a: string, b: string): seq<string> {
    if Less(b, a) then [b, a] else [a, b]
  }

  /** The sorted pair holds the two names, the second never smaller than the first. */
  lemma SortPairSorted(a: string, b: string)
    ensures |SortPair(a, b)| == 2 && multiset(SortPair(a, b)) == multiset{a, b}
    ensures !Less(SortPair(a, b)[1], SortPair(a, b)[0])
  {
    LessAsymmetric(a, b);
  }

  /** `getConversationId`: the sorted pair joined by `"__"`. */
  function ConversationId(user1: string, user2: string): string {
    Join(SortPair(user1, user2), "__")
  }

  /** The identifier is the smaller name, then `"__"`, then the larger one. */
  lemma ConversationIdSmallerFirst(a: string, b: string)
    ensures Less(a, b) ==> ConversationId(a, b) == a + "__" + b
    ensures Less(b, a) ==> ConversationId(a, b) == b + "__" + a
    ensures ConversationId(a, a) == a + "__" + a
  {
    LessAsymmetric(a, b);
    LessIrreflexive(a);
    JoinPair(a, b, "__");
    JoinPair(b, a, "__");
    JoinPair(a, a, "__");
  }

  /** Both parties compute the same identifier. */
  lemma ConversationIdSymmetric(a: string, b: string)
    ensures ConversationId(a, b) == ConversationId(b, a)
  {
    LessTotal(a, b);
    ConversationIdSmallerFirst(a, b);
    ConversationIdSmallerFirst(b, a);
  }

  /**
   * Usernames may contain the separator, so two different pairs can share one
   * identifier: the conversation of "a__b" with "c" is that of "a" with "b__c".
   */
  lemma ConversationIdCollision()
    ensures ConversationId("a__b", "c") == ConversationId("a", "b__c")
    ensures "a__b" != "a" && "a__b" != "b__c"
  {
    assert Less("a__b", "c");
    assert Less("a", "b__c");
    ConversationIdSmallerFirst("a__b", "c");
    ConversationIdSmallerFirst("a", "b__c");
  }

  /** In a joined pair whose first name is free of `'_'`, the first `'_'` stands right after that name. */
  lemma FirstUnderscore(x: string, y: string)
    requires '_' !in x
    ensures (x + "__" + y)[|x|] == '_'
    ensures forall i :: 0 <= i < |x| ==> (x + "__" + y)[i] != '_'
  {
    forall i | 0 <= i < |x| ensures (x + "__" + y)[i] != '_' {
      assert (x + "__" + y)[i] == x[i];
    }
  }

  /** Two names free of `'_'` are recovered from their joined form. */
  lemma JoinedUnique(x: string, y: string, u: string, v: string)
    requires '_' !in x && '_' !in u
    requires x + "__" + y == u + "__" + v
    ensures x == u && y == v
  {
    var w := x + "__" + y;
    FirstUnderscore(x, y);
    FirstUnderscore(u, v);
    assert |x| == |u|;
    assert x == w[..|x|] == u;
    assert y == w[|x| + 2..] == v;
  }

  /** For names free of `'_'`, one identifier belongs to one unordered pair. */
  lemma ConversationIdInjective(a: string, b: string, c: string, d: string)
    requires '_' !in a && '_' !in b && '_' !in c && '_' !in d
    requires ConversationId(a, b) == ConversationId(c, d)
    ensures (a == c && b == d) || (a == d && b == c)
  {
    var p := SortPair(a, b);
    var q := SortPair(c, d);
    JoinPair(p[0], p[1], "__");
    JoinPair(q[0], q[1], "__");
    JoinedUnique(p[0], p[1], q[0], q[1]);
  }
}
