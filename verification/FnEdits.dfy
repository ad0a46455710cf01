/** What scripts/check_moved_fn_bodies.py detects: the sides of a comparison as multisets of functions with
    their tokens, and when two sides between which nothing is reported have the same tokens. */
module FnEdits {
  import opened Prelude
  import opened MultisetSums
  import opened FnBodies
  import opened FnTokens
  import opened NormalForms

  type TokenItem = (string, seq<Token>)

  /** Every function of the listed files, with its text. */
  function AllItems(texts: seq<string>): seq<Item> {
    if texts == [] then [] else Functions(None, texts[0]) + AllItems(texts[1..])
  }

  function TokenItems(items: seq<Item>): (tokens: seq<TokenItem>)
    ensures |tokens| == |items|
  {
    if items == [] then [] else [(items[0].0, TokensOf(items[0].1))] + TokenItems(items[1..])
  }

  predicate AllTight(items: seq<Item>) {
    forall item :: item in items ==> Tight(TokensOf(item.1))
  }

  /** Functions of the two lists with one name and one normal form have the same line comments. */
  predicate CommentsKept(a: seq<Item>, b: seq<Item>) {
    forall f, g :: f in a && g in b && f.0 == g.0 && Normalise(f.1) == Normalise(g.1) ==>
      LineComments(TokensOf(f.1)) == LineComments(TokensOf(g.1))
  }

  type DetailedItem = (string, string, seq<string>)

  function Detailed(items: seq<Item>): seq<DetailedItem> {
    if items == [] then []
    else [(items[0].0, Normalise(items[0].1), LineComments(TokensOf(items[0].1)))] + Detailed(items[1..])
  }

  lemma {:induction false} SideIsCounted(texts: seq<string>)
    ensures Side(texts) == Counted(AllItems(texts))
  {
    hide Functions;
    if texts != [] {
      SideIsCounted(texts[1..]);
      CountedConcat(Functions(None, texts[0]), AllItems(texts[1..]));
    }
  }

  function SpeltItem(item: TokenItem): multiset<Item> {
    multiset{(item.0, Spelt(item.1))}
  }

  /** The counter is the image of the functions with their tokens. */
  lemma {:induction false} CountedIsSpelt(items: seq<Item>)
    ensures Counted(items) == Sum(SpeltItem, TokenItems(items))
  {
    hide TokensOf, Normalise, Spelt;
    if items != [] {
      SpeltIs(items[0].1);
      CountedIsSpelt(items[1..]);
    }
  }

  /** A token list is counted as often as its spelling, when no other token list is spelt so. */
  lemma {:induction false} CountedAsTokens(items: seq<Item>, name: string, ts: seq<Token>)
    requires forall i :: i in items && i.0 == name && Normalise(i.1) == Spelt(ts) ==> TokensOf(i.1) == ts
    ensures multiset(TokenItems(items))[(name, ts)] == Counted(items)[(name, Spelt(ts))]
  {
    hide TokensOf, Normalise, Spelt;
    if items != [] {
      var item, rest := items[0], TokenItems(items[1..]);
      CountedAsTokens(items[1..], name, ts);
      SpeltIs(item.1);
      assert item in items;
      assert TokenItems(items) == [(item.0, TokensOf(item.1))] + rest;
    }
  }

  lemma {:induction false} TokenItemIsItem(items: seq<Item>, item: TokenItem) returns (f: Item)
    requires item in TokenItems(items)
    ensures f in items && item == (f.0, TokensOf(f.1))
  {
    hide TokensOf;
    if item == TokenItems(items)[0] {
      f := items[0];
    } else {
      f := TokenItemIsItem(items[1..], item);
    }
  }

  lemma {:induction false} CountedIsItem(items: seq<Item>, x: Item) returns (f: Item)
    requires x in Counted(items)
    ensures f in items && x == (f.0, Normalise(f.1))
  {
    hide Normalise;
    if x == (items[0].0, Normalise(items[0].1)) {
      f := items[0];
    } else {
      f := CountedIsItem(items[1..], x);
    }
  }

  /** With the line comments kept, the functions of one name and normal form have the same tokens. */
  lemma SameGroup(a: seq<Item>, b: seq<Item>, f: Item)
    requires AllTight(a) && AllTight(b) && CommentsKept(a, b) && Counted(a) == Counted(b) && f in a
    ensures forall i :: (i in a || i in b) && i.0 == f.0 && Normalise(i.1) == Normalise(f.1) ==>
              TokensOf(i.1) == TokensOf(f.1)
  {
    hide TokensOf, Normalise, Counted, Tight, LineComments;
    CountedHas(a, f);
    var g := CountedIsItem(b, (f.0, Normalise(f.1)));
    forall i | (i in a || i in b) && i.0 == f.0 && Normalise(i.1) == Normalise(f.1)
      ensures TokensOf(i.1) == TokensOf(f.1)
    {
      SameNormalForm(i.1, f.1);
      assert LineComments(TokensOf(g.1)) == LineComments(TokensOf(f.1));
    }
  }

  lemma {:induction false} CountedHas(items: seq<Item>, f: Item)
    requires f in items
    ensures (f.0, Normalise(f.1)) in Counted(items)
  {
    hide Normalise;
    if f != items[0] {
      CountedHas(items[1..], f);
    }
  }

  lemma KeptBack(a: seq<Item>, b: seq<Item>)
    requires CommentsKept(a, b)
    ensures CommentsKept(b, a)
  {
    hide TokensOf, Normalise, LineComments;
  }

  lemma SameCountOfTokens(a: seq<Item>, b: seq<Item>, item: TokenItem)
    requires AllTight(a) && AllTight(b) && CommentsKept(a, b) && Counted(a) == Counted(b)
    requires item in TokenItems(a)
    ensures multiset(TokenItems(a))[item] == multiset(TokenItems(b))[item]
  {
    hide *;
    var f := TokenItemIsItem(a, item);
    SameGroup(a, b, f);
    SpeltIs(f.1);
    CountedAsTokens(a, f.0, item.1);
    CountedAsTokens(b, f.0, item.1);
  }

  lemma SameCountsSameTokens(a: seq<Item>, b: seq<Item>)
    requires AllTight(a) && AllTight(b) && CommentsKept(a, b) && Counted(a) == Counted(b)
    ensures multiset(TokenItems(a)) == multiset(TokenItems(b))
  {
    hide *;
    KeptBack(a, b);
    var x, y := multiset(TokenItems(a)), multiset(TokenItems(b));
    forall item: TokenItem
      ensures x[item] == y[item]
    {
      if item in x {
        SameCountOfTokens(a, b, item);
      } else if item in y {
        SameCountOfTokens(b, a, item);
      }
    }
  }

  lemma SameTokensSameCounts(a: seq<Item>, b: seq<Item>)
    requires multiset(TokenItems(a)) == multiset(TokenItems(b))
    ensures Counted(a) == Counted(b)
  {
    hide *;
    CountedIsSpelt(a);
    CountedIsSpelt(b);
    SumOfPermutation(SpeltItem, TokenItems(a), TokenItems(b));
  }

  /** However many functions change or move at once: as long as functions with one name and normal form have
      the same line comments, nothing is reported if and only if both sides hold the same functions with the
      same tokens equally often. */
  lemma TokenChangesAreReported(before: seq<string>, after: seq<string>)
    requires AllTight(AllItems(before)) && AllTight(AllItems(after))
    requires CommentsKept(AllItems(before), AllItems(after))
    ensures Compare(Side(before), Side(after)) == UNCHANGED <==>
            multiset(TokenItems(AllItems(before))) == multiset(TokenItems(AllItems(after)))
  {
    hide *;
    var a, b := AllItems(before), AllItems(after);
    SideIsCounted(before);
    SideIsCounted(after);
    CompareExact(Side(before), Side(after));
    if Counted(a) == Counted(b) {
      SameCountsSameTokens(a, b);
    }
    if multiset(TokenItems(a)) == multiset(TokenItems(b)) {
      SameTokensSameCounts(a, b);
    }
  }

  // ----- What the counter lacks -----

  /** How often a function occurs with its tokens is how often it occurs with its normal form and comments. */
  lemma {:induction false} DetailedAsTokens(items: seq<Item>, f: Item)
    requires AllTight(items) && Tight(TokensOf(f.1))
    ensures multiset(TokenItems(items))[(f.0, TokensOf(f.1))] ==
            multiset(Detailed(items))[(f.0, Normalise(f.1), LineComments(TokensOf(f.1)))]
  {
    hide TokensOf, Normalise, Tight, LineComments;
    if items != [] {
      var item, rest, details := items[0], TokenItems(items[1..]), Detailed(items[1..]);
      assert item in items && AllTight(items[1..]);
      DetailedAsTokens(items[1..], f);
      SameNormalForm(item.1, f.1);
      assert TokenItems(items) == [(item.0, TokensOf(item.1))] + rest;
      assert Detailed(items) == [(item.0, Normalise(item.1), LineComments(TokensOf(item.1)))] + details;
    }
  }

  lemma {:induction false} DetailedIsItem(items: seq<Item>, x: DetailedItem) returns (f: Item)
    requires x in Detailed(items)
    ensures f in items && x == (f.0, Normalise(f.1), LineComments(TokensOf(f.1)))
  {
    hide Normalise, TokensOf, LineComments;
    if x == Detailed(items)[0] {
      f := items[0];
    } else {
      f := DetailedIsItem(items[1..], x);
    }
  }

  lemma TightItem(items: seq<Item>, f: Item)
    requires AllTight(items) && f in items
    ensures Tight(TokensOf(f.1))
  {
    hide Tight, TokensOf;
  }

  lemma SameTokensOfPart(a: seq<Item>, b: seq<Item>, item: TokenItem)
    requires AllTight(a) && AllTight(b) && multiset(Detailed(a)) == multiset(Detailed(b)) && item in TokenItems(a)
    ensures multiset(TokenItems(a))[item] == multiset(TokenItems(b))[item]
  {
    hide *;
    var f := TokenItemIsItem(a, item);
    TightItem(a, f);
    DetailedAsTokens(a, f);
    DetailedAsTokens(b, f);
  }

  lemma SameDetailsOfPart(a: seq<Item>, b: seq<Item>, x: DetailedItem)
    requires AllTight(a) && AllTight(b) && multiset(TokenItems(a)) == multiset(TokenItems(b)) && x in Detailed(a)
    ensures multiset(Detailed(a))[x] == multiset(Detailed(b))[x]
  {
    hide *;
    var f := DetailedIsItem(a, x);
    TightItem(a, f);
    DetailedAsTokens(a, f);
    DetailedAsTokens(b, f);
  }

  /** The names, normal forms and line comments of a side fix its names and tokens, and conversely. */
  lemma CommentsFixTokens(a: seq<Item>, b: seq<Item>)
    requires AllTight(a) && AllTight(b)
    ensures multiset(TokenItems(a)) == multiset(TokenItems(b)) <==> multiset(Detailed(a)) == multiset(Detailed(b))
  {
    hide *;
    if multiset(Detailed(a)) == multiset(Detailed(b)) {
      var x, y := multiset(TokenItems(a)), multiset(TokenItems(b));
      forall item: TokenItem
        ensures x[item] == y[item]
      {
        if item in x {
          SameTokensOfPart(a, b, item);
        } else if item in y {
          SameTokensOfPart(b, a, item);
        }
      }
    }
    if multiset(TokenItems(a)) == multiset(TokenItems(b)) {
      var x, y := multiset(Detailed(a)), multiset(Detailed(b));
      forall item: DetailedItem
        ensures x[item] == y[item]
      {
        if item in x {
          SameDetailsOfPart(a, b, item);
        } else if item in y {
          SameDetailsOfPart(b, a, item);
        }
      }
    }
  }

  // ----- An edit of one function -----

  lemma OneItem(item: Item)
    ensures Counted([item]) == multiset{(item.0, Normalise(item.1))}
  {
    hide Normalise;
    assert [item][1..] == [] && Counted([]) == multiset{};
  }

  /** An edit of one function, wherever the chunks end up, that leaves the texts of its line comments as they
      were is reported if and only if it changes the name or the tokens, even when the function moves too. */
  lemma FunctionEditIsReported(before: seq<seq<string>>, after: seq<seq<string>>, rest: seq<string>,
                               oldChunk: string, newChunk: string, f: Item, g: Item)
    requires forall c, i :: c in before && i in c ==> WellDelimited(i)
    requires forall c, i :: c in after && i in c ==> WellDelimited(i)
    requires multiset(Chunks(before)) == multiset([oldChunk] + rest)
    requires multiset(Chunks(after)) == multiset([newChunk] + rest)
    requires Functions(None, oldChunk) == [f] && Functions(None, newChunk) == [g]
    requires Tight(TokensOf(f.1)) && Tight(TokensOf(g.1))
    requires LineComments(TokensOf(f.1)) == LineComments(TokensOf(g.1))
    ensures Compare(Side(Texts(before)), Side(Texts(after))) == UNCHANGED <==>
            f.0 == g.0 && TokensOf(f.1) == TokensOf(g.1)
  {
    assert Bodies(oldChunk) == Counted([f]) && Bodies(newChunk) == Counted([g]);
    hide *;
    EditsAreReported(before, after, rest, oldChunk, newChunk);
    OneItem(f);
    OneItem(g);
    SameNormalForm(f.1, g.1);
    var x, y := (f.0, Normalise(f.1)), (g.0, Normalise(g.1));
    assert multiset{x} == multiset{y} ==> x in multiset{y};
  }
}
