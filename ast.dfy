/**
 * `AstBuilder`: decides a statement's query type from its first token and
 * rebuilds the query text from the tokens' display forms.
 */
module Ast {
  import opened Wrappers
  import Lexer

  datatype QueryType = Select | Insert | Update | Delete | Create | Alter | Drop | Unknown

  datatype Statement = Statement(queryType: QueryType, queryText: string)

  datatype AstBuilder = AstBuilder(tokens: seq<Lexer.Token>, pos: nat)

  /** `Display for QueryType`: the statement's upper-case keyword, the word
      that names the type when it starts a statement. */
  function QueryTypeName(q: QueryType): (r: string)
    ensures Lexer.IsUpperWord(r)
    ensures Lexer.EqIgnoreAsciiCase(r, StatementWord(q))
  {
    match q
    case Select => "SELECT"
    case Insert => "INSERT"
    case Update => "UPDATE"
    case Delete => "DELETE"
    case Create => "CREATE"
    case Alter => "ALTER"
    case Drop => "DROP"
    case Unknown => "UNKNOWN"
  }

  /** `AstBuilder::new`. */
  function NewBuilder(tokens: seq<Lexer.Token>): (b: AstBuilder)
    ensures b.tokens == tokens && b.pos == 0
  {
    AstBuilder(tokens, 0)
  }

  /** The lower-case keyword of a query type. */
  function StatementWord(q: QueryType): string
  {
    match q
    case Select => "select"
    case Insert => "insert"
    case Update => "update"
    case Delete => "delete"
    case Create => "create"
    case Alter => "alter"
    case Drop => "drop"
    case Unknown => "unknown"
  }

  /** The query types an identifier can name. */
  predicate NamedByIdentifier(q: QueryType)
  {
    q != Select && q != Unknown
  }

  /** The query type the first token names: the `Select` keyword, or an
      identifier spelling a statement keyword in any case. */
  function QueryTypeOf(tokens: seq<Lexer.Token>): (r: QueryType)
    ensures r == Select <==> tokens != [] && tokens[0].tokenType == Lexer.Select
    ensures NamedByIdentifier(r) ==>
      tokens != [] && tokens[0].tokenType.Identifier?
      && Lexer.EqIgnoreAsciiCase(tokens[0].tokenType.id, StatementWord(r))
  {
    if tokens == [] then Unknown
    else match tokens[0].tokenType
      case Select => Select
      case Identifier(id) =>
        if Lexer.EqIgnoreAsciiCase(id, "insert") then Insert
        else if Lexer.EqIgnoreAsciiCase(id, "update") then Update
        else if Lexer.EqIgnoreAsciiCase(id, "delete") then Delete
        else if Lexer.EqIgnoreAsciiCase(id, "create") then Create
        else if Lexer.EqIgnoreAsciiCase(id, "alter") then Alter
        else if Lexer.EqIgnoreAsciiCase(id, "drop") then Drop
        else Unknown
      case _ => Unknown
  }

  /** The display form of each token, in order. */
  function Displays(tokens: seq<Lexer.Token>): (ds: seq<string>)
    ensures |ds| == |tokens|
    ensures forall i :: 0 <= i < |tokens| ==> ds[i] == Lexer.TokenDisplay(tokens[i].tokenType)
  {
    if tokens == [] then [] else [Lexer.TokenDisplay(tokens[0].tokenType)] + Displays(tokens[1..])
  }

  /** The display forms joined with single spaces. */
  function QueryText(tokens: seq<Lexer.Token>): string
  {
    Lexer.JoinSpaced(Displays(tokens))
  }

  /** `AstBuilder::build`: never fails. */
  function Build(b: AstBuilder): (r: Result<Statement, string>)
    ensures r.Ok?
  {
    Ok(Statement(QueryTypeOf(b.tokens), QueryText(b.tokens)))
  }

  // ---------------------------------------------------------------------
  // Properties.

  /** Only the first token decides the query type. */
  lemma QueryTypeOnlyFirst(t: Lexer.Token, rest1: seq<Lexer.Token>, rest2: seq<Lexer.Token>)
    ensures QueryTypeOf([t] + rest1) == QueryTypeOf([t] + rest2)
    ensures QueryTypeOf([t] + rest1) == QueryTypeOf([t])
  {
  }

  /** No token, or a first token that is neither `Select` nor an identifier,
      gives Unknown. */
  lemma UnknownUnlessSelectOrIdentifier(tokens: seq<Lexer.Token>)
    requires tokens == [] || (!tokens[0].tokenType.Select? && !tokens[0].tokenType.Identifier?)
    ensures QueryTypeOf(tokens) == Unknown
  {
  }

  /** Distinct query types display differently. */
  lemma QueryTypeNameInjective(a: QueryType, b: QueryType)
    requires QueryTypeName(a) == QueryTypeName(b)
    ensures a == b
  {
  }

  predicate IsLowerWord(w: string)
  {
    forall i :: 0 <= i < |w| ==> 'a' <= w[i] <= 'z'
  }

  /** Two lower-case words that one identifier equals, ignoring ASCII case,
      are the same word. */
  lemma LowerWordsEqual(id: string, a: string, b: string)
    requires IsLowerWord(a) && IsLowerWord(b)
    requires Lexer.EqIgnoreAsciiCase(id, a) && Lexer.EqIgnoreAsciiCase(id, b)
    ensures a == b
  {
    forall i | 0 <= i < |a|
      ensures a[i] == b[i]
    {
      assert Lexer.LowerChar(a[i]) == a[i] && Lexer.LowerChar(b[i]) == b[i];
    }
  }

  /** An identifier equal, ignoring ASCII case, to a statement's keyword (in
      any spelling: "insert", "Insert", "INSERT") classifies as that
      statement. */
  lemma NameClassifiesBack(q: QueryType, t: Lexer.Token, id: string)
    requires NamedByIdentifier(q)
    requires t.tokenType == Lexer.Identifier(id) && Lexer.EqIgnoreAsciiCase(id, StatementWord(q))
    ensures QueryTypeOf([t]) == q
  {
    var r := QueryTypeOf([t]);
    if NamedByIdentifier(r) && r != q {
      LowerWordsEqual(id, StatementWord(q), StatementWord(r));
    }
  }

  /** The displayed name of a statement type, read as an identifier, gives
      that type back. */
  lemma DisplayClassifiesBack(q: QueryType, t: Lexer.Token)
    requires NamedByIdentifier(q) && t.tokenType == Lexer.Identifier(QueryTypeName(q))
    ensures QueryTypeOf([t]) == q
  {
    NameClassifiesBack(q, t, QueryTypeName(q));
  }

  /** A statement is Unknown exactly when there is no token, or the first
      token is neither `Select` nor an identifier naming a statement. */
  lemma UnknownExactly(tokens: seq<Lexer.Token>)
    ensures QueryTypeOf(tokens) == Unknown <==>
      tokens == []
      || (tokens[0].tokenType != Lexer.Select
        && (!tokens[0].tokenType.Identifier?
          || forall q :: NamedByIdentifier(q) ==> !Lexer.EqIgnoreAsciiCase(tokens[0].tokenType.id, StatementWord(q))))
  {
    if tokens != [] && tokens[0].tokenType.Identifier? {
      var id := tokens[0].tokenType.id;
      QueryTypeOnlyFirst(tokens[0], tokens[1..], []);
      assert [tokens[0]] + tokens[1..] == tokens;
      forall q | NamedByIdentifier(q) && Lexer.EqIgnoreAsciiCase(id, StatementWord(q))
        ensures QueryTypeOf(tokens) == q
      {
        NameClassifiesBack(q, tokens[0], id);
      }
    }
  }

  /** When every token displays as one word, splitting the query text at
      whitespace gives back the display forms. */
  lemma QueryTextSplitsBack(tokens: seq<Lexer.Token>)
    requires forall i :: 0 <= i < |tokens| ==>
      Lexer.TokenDisplay(tokens[i].tokenType) != [] && Lexer.NoWhitespace(Lexer.TokenDisplay(tokens[i].tokenType))
    ensures Lexer.Words(QueryText(tokens)) == Displays(tokens)
  {
    Lexer.WordsOfJoin(Displays(tokens));
  }
}
