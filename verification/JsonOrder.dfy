/** Documents that differ only in blanks, escapes and the order of members are
    read alike, and no others are. */
module JsonOrder {
  import opened Wrappers
  import opened Utf8
  import opened Hexadecimal
  import opened JsonSyntax
  import opened JsonGrammar
  import opened JsonParsing
  import opened JsonScreen
  import opened JsonCanonical
  import opened JsonRoundTrip

  // -----------------------------------------------------------------------
  // The same content, differently laid out

  function Without<T>(s: seq<T>, j: nat): (r: seq<T>)
    requires j < |s|
    ensures |r| == |s| - 1
    ensures forall k :: 0 <= k < |r| ==> r[k] == if k < j then s[k] else s[k + 1]
  {
    s[..j] + s[j + 1..]
  }

  /** Same words, digits and texts; arrays element by element; objects with the
      same members, at every level in any order. Blanks and escapes may differ. */
  ghost predicate Alike(a: Cst, b: Cst)
    requires NodeOk(a) && NodeOk(b)
    decreases a, 0
  {
    match a
    case Word(v) => b.Word? && v == b.value
    case Num(digits) => b.Num? && digits == b.digits
    case Str(tokens) => b.Str? && TokensText(tokens) == TokensText(b.tokens)
    case Arr(_, items) =>
      b.Arr? && |items| == |b.items|
      && forall i :: 0 <= i < |items| ==>
           ItemOk(items[i]) && ItemOk(b.items[i]) && Alike(items[i].node, b.items[i].node)
    case Obj(_, entries) => b.Obj? && Rearranged(entries, b.entries)
  }

  /** The first entry has its like somewhere, and the others have theirs among the rest. */
  ghost predicate Rearranged(xs: seq<Entry>, ys: seq<Entry>)
    requires forall i :: 0 <= i < |xs| ==> EntryOk(xs[i])
    requires forall i :: 0 <= i < |ys| ==> EntryOk(ys[i])
    decreases xs, 1
  {
    if xs == [] then ys == []
    else
      assert EntryOk(xs[0]) && ItemOk(xs[0].item);
      exists j :: 0 <= j < |ys| && EntryOk(ys[j]) && ItemOk(ys[j].item)
                  && TokensText(xs[0].key) == TokensText(ys[j].key)
                  && Alike(xs[0].item.node, ys[j].item.node)
                  && Rearranged(xs[1..], Without(ys, j))
  }

  /** The like of the first entry. */
  lemma FindLike(xs: seq<Entry>, ys: seq<Entry>) returns (j: nat)
    requires xs != [] && forall i :: 0 <= i < |xs| ==> EntryOk(xs[i])
    requires forall i :: 0 <= i < |ys| ==> EntryOk(ys[i])
    requires Rearranged(xs, ys)
    ensures j < |ys| && EntryOk(xs[0]) && ItemOk(xs[0].item) && EntryOk(ys[j]) && ItemOk(ys[j].item)
    ensures TokensText(xs[0].key) == TokensText(ys[j].key) && Alike(xs[0].item.node, ys[j].item.node)
    ensures Rearranged(xs[1..], Without(ys, j))
  {
    hide Alike, NodeOk, TokensText;
    assert EntryOk(xs[0]) && ItemOk(xs[0].item);
    j :| 0 <= j < |ys| && EntryOk(ys[j]) && ItemOk(ys[j].item)
         && TokensText(xs[0].key) == TokensText(ys[j].key)
         && Alike(xs[0].item.node, ys[j].item.node) && Rearranged(xs[1..], Without(ys, j));
  }

  lemma EmptyRearranged(ys: seq<Entry>)
    requires (forall i :: 0 <= i < |ys| ==> EntryOk(ys[i])) && Rearranged([], ys)
    ensures ys == []
  {}

  // -----------------------------------------------------------------------
  // Alike trees mean the same

  /** Two neighbours may change places: either key repeats both ways or neither does. */
  lemma SwapMeans(x: Entry, y: Entry, rest: seq<Entry>, members: seq<Member>)
    requires EntryOk(x) && EntryOk(y) && forall i :: 0 <= i < |rest| ==> EntryOk(rest[i])
    ensures ObjectMeaning([x, y] + rest, members) == ObjectMeaning([y, x] + rest, members)
  {
    hide Meaning, NodeOk, Insert, HasKey, TokensText;
    assert ItemOk(x.item) && ItemOk(y.item);
    var j, k := TokensText(x.key), TokensText(y.key);
    var v, w := Meaning(x.item.node), Meaning(y.item.node);
    assert ([x, y] + rest)[1..] == [y] + rest && ([y, x] + rest)[1..] == [x] + rest;
    assert ([y] + rest)[1..] == rest && ([x] + rest)[1..] == rest;
    if v.Some? && w.Some? {
      InsertHasKey(members, j, v.value, k);
      InsertHasKey(members, k, w.value, j);
      if j != k {
        InsertCommutes(members, j, v.value, k, w.value);
      }
    }
  }

  /** An entry may be moved to the front. */
  lemma {:induction false} FrontMeans(ys: seq<Entry>, j: nat, members: seq<Member>)
    requires j < |ys| && forall i :: 0 <= i < |ys| ==> EntryOk(ys[i])
    ensures ObjectMeaning(ys, members) == ObjectMeaning([ys[j]] + Without(ys, j), members)
    decreases j
  {
    hide Meaning, NodeOk, Insert, HasKey, TokensText;
    if j == 0 {
      assert [ys[0]] + Without(ys, 0) == ys;
    } else {
      assert ItemOk(ys[0].item);
      var tail := ys[1..];
      var rest := Without(tail, j - 1);
      assert [ys[j]] + Without(ys, j) == [ys[j], ys[0]] + rest;
      assert [ys[0]] + ([ys[j]] + rest) == [ys[0], ys[j]] + rest;
      SwapMeans(ys[0], ys[j], rest, members);
      var key, v := TokensText(ys[0].key), Meaning(ys[0].item.node);
      assert ([ys[0]] + ([ys[j]] + rest))[1..] == [ys[j]] + rest;
      if v.Some? && !HasKey(members, key) {
        FrontMeans(tail, j - 1, Insert(members, key, v.value));
      }
    }
  }

  lemma {:induction false} AlikeMeans(a: Cst, b: Cst)
    requires NodeOk(a) && NodeOk(b) && Alike(a, b)
    ensures Meaning(a) == Meaning(b)
    decreases a, 0
  {
    match a
    case Arr(_, items) => AlikeItemsMean(items, b.items, []);
    case Obj(_, entries) => RearrangedMeans(entries, b.entries, []);
    case _ =>
  }

  lemma {:induction false} AlikeItemsMean(xs: seq<Item>, ys: seq<Item>, values: seq<JsonValue>)
    requires |xs| == |ys|
    requires forall i :: 0 <= i < |xs| ==> ItemOk(xs[i]) && ItemOk(ys[i]) && Alike(xs[i].node, ys[i].node)
    ensures ArrayMeaning(xs, values) == ArrayMeaning(ys, values)
    decreases xs, 1
  {
    hide Meaning, NodeOk, Alike;
    if xs != [] {
      assert ItemOk(xs[0]) && ItemOk(ys[0]);
      AlikeMeans(xs[0].node, ys[0].node);
      if Meaning(xs[0].node).Some? {
        AlikeItemsMean(xs[1..], ys[1..], values + [Meaning(xs[0].node).value]);
      }
    }
  }

  lemma {:induction false} RearrangedMeans(xs: seq<Entry>, ys: seq<Entry>, members: seq<Member>)
    requires forall i :: 0 <= i < |xs| ==> EntryOk(xs[i])
    requires forall i :: 0 <= i < |ys| ==> EntryOk(ys[i])
    requires Rearranged(xs, ys)
    ensures ObjectMeaning(xs, members) == ObjectMeaning(ys, members)
    decreases xs, 1
  {
    hide Meaning, NodeOk, Insert, HasKey, TokensText, Alike, Rearranged;
    if xs == [] {
      assert ys == [] by { EmptyRearranged(ys); }
    } else {
      var j := FindLike(xs, ys);
      AlikeMeans(xs[0].item.node, ys[j].item.node);
      FrontMeans(ys, j, members);
      var moved := [ys[j]] + Without(ys, j);
      assert moved[0] == ys[j] && moved[1..] == Without(ys, j);
      var key, v := TokensText(xs[0].key), Meaning(xs[0].item.node);
      if v.Some? && !HasKey(members, key) {
        RearrangedMeans(xs[1..], Without(ys, j), Insert(members, key, v.value));
      }
    }
  }

  // -----------------------------------------------------------------------
  // Trees of one meaning are alike

  ghost predicate Meaningful(e: Entry) {
    EntryOk(e) && ItemOk(e.item) && Meaning(e.item.node).Some?
  }

  ghost predicate AllMeaningful(entries: seq<Entry>) {
    forall i :: 0 <= i < |entries| ==> Meaningful(entries[i])
  }

  /** Key and value of each entry, as written. */
  ghost function Pairs(entries: seq<Entry>): (pairs: seq<Member>)
    requires AllMeaningful(entries)
    ensures |pairs| == |entries|
  {
    if entries == [] then []
    else
      assert Meaningful(entries[0]);
      [Member(TokensText(entries[0].key), Meaning(entries[0].item.node).value)] + Pairs(entries[1..])
  }

  lemma {:induction false} InsertMultiset(members: seq<Member>, key: Text, v: JsonValue)
    ensures multiset(Insert(members, key, v)) == multiset(members) + multiset{Member(key, v)}
  {
    if members != [] {
      assert members == [members[0]] + members[1..];
      if !Less(key, members[0].key) {
        InsertMultiset(members[1..], key, v);
      }
    }
  }

  /** The map of an object holds exactly the pairs written, in key order. */
  lemma {:induction false} ObjectHoldsPairs(entries: seq<Entry>, members: seq<Member>)
    requires AllMeaningful(entries) && forall i :: 0 <= i < |entries| ==> EntryOk(entries[i])
    requires ObjectMeaning(entries, members).Some? && KeysSorted(members)
    ensures ObjectMeaning(entries, members).value.Object?
    ensures KeysSorted(ObjectMeaning(entries, members).value.members)
    ensures multiset(ObjectMeaning(entries, members).value.members) == multiset(members) + multiset(Pairs(entries))
  {
    hide Meaning, NodeOk, Insert, HasKey, KeysSorted, TokensText;
    if entries != [] {
      assert Meaningful(entries[0]);
      var key, v := TokensText(entries[0].key), Meaning(entries[0].item.node).value;
      InsertMultiset(members, key, v);
      InsertKeepsOrder(members, key, v);
      ObjectHoldsPairs(entries[1..], Insert(members, key, v));
    }
  }

  lemma {:induction false} AcceptedIsMeaningful(entries: seq<Entry>, members: seq<Member>)
    requires forall i :: 0 <= i < |entries| ==> EntryOk(entries[i])
    requires ObjectMeaning(entries, members).Some?
    ensures AllMeaningful(entries)
    decreases |entries|
  {
    hide Meaning, NodeOk, Insert, HasKey, TokensText;
    if entries != [] {
      assert EntryOk(entries[0]) && ItemOk(entries[0].item);
      var key, v := TokensText(entries[0].key), Meaning(entries[0].item.node);
      AcceptedIsMeaningful(entries[1..], Insert(members, key, v.value));
      assert forall i :: 1 <= i < |entries| ==> entries[i] == entries[1..][i - 1];
    }
  }

  lemma {:induction false} PairAt(entries: seq<Entry>, j: nat)
    requires AllMeaningful(entries) && j < |entries|
    ensures Meaningful(entries[j])
    ensures Pairs(entries)[j] == Member(TokensText(entries[j].key), Meaning(entries[j].item.node).value)
  {
    hide Meaning, NodeOk, TokensText;
    assert Meaningful(entries[0]) && Meaningful(entries[j]);
    if j > 0 {
      assert entries[1..][j - 1] == entries[j];
      PairAt(entries[1..], j - 1);
    }
  }

  lemma {:induction false} PairsWithout(entries: seq<Entry>, j: nat)
    requires AllMeaningful(entries) && j < |entries|
    ensures AllMeaningful(Without(entries, j)) && Pairs(Without(entries, j)) == Without(Pairs(entries), j)
  {
    hide Meaningful;
    if j == 0 {
      assert Without(entries, 0) == entries[1..];
      assert Without(Pairs(entries), 0) == Pairs(entries)[1..];
    } else {
      var rest := Without(entries, j);
      assert rest[1..] == Without(entries[1..], j - 1);
      PairsWithout(entries[1..], j - 1);
    }
  }

  lemma MultisetWithout<T>(s: seq<T>, j: nat)
    requires j < |s|
    ensures multiset(Without(s, j)) == multiset(s) - multiset{s[j]}
  {
    assert s == s[..j] + [s[j]] + s[j + 1..];
  }

  lemma FindSame<T>(s: seq<T>, t: seq<T>) returns (j: nat)
    requires s != [] && multiset(s) == multiset(t)
    ensures j < |t| && t[j] == s[0] && multiset(Without(s, 0)) == multiset(Without(t, j))
  {
    assert s[0] in multiset(t);
    j :| j < |t| && t[j] == s[0];
    MultisetWithout(s, 0);
    MultisetWithout(t, j);
  }

  lemma {:induction false} DigitsUnique(digits: seq<byte>)
    requires DigitsOk(digits)
    ensures DigitsOf(Decimal(digits)) == digits
  {
    var n := |digits| - 1;
    if n > 0 {
      DigitsUnique(digits[..n]);
      assert Decimal(digits[..n]) > 0;
    }
  }

  lemma {:induction false} ArrayHolds(items: seq<Item>, values: seq<JsonValue>)
    requires (forall i :: 0 <= i < |items| ==> ItemOk(items[i])) && ArrayMeaning(items, values).Some?
    ensures var v := ArrayMeaning(items, values).value;
            && v.Array? && |v.values| == |values| + |items| && v.values[..|values|] == values
            && forall i :: 0 <= i < |items| ==>
                 ItemOk(items[i]) && Meaning(items[i].node) == Some(v.values[|values| + i])
    decreases |items|
  {
    hide Meaning, NodeOk;
    if items != [] {
      assert ItemOk(items[0]);
      var all := values + [Meaning(items[0].node).value];
      ArrayHolds(items[1..], all);
      var v := ArrayMeaning(items, values).value;
      assert all[..|values|] == values && v.values[|values|] == all[|values|];
      forall i | 0 <= i < |items|
        ensures ItemOk(items[i]) && Meaning(items[i].node) == Some(v.values[|values| + i])
      {
        if i > 0 {
          assert items[i] == items[1..][i - 1];
        }
      }
    }
  }

  /** What the meaning of an object holds. */
  lemma ObjectHolds(entries: seq<Entry>)
    requires (forall i :: 0 <= i < |entries| ==> EntryOk(entries[i])) && ObjectMeaning(entries, []).Some?
    ensures AllMeaningful(entries) && ObjectMeaning(entries, []).value.Object?
    ensures multiset(ObjectMeaning(entries, []).value.members) == multiset(Pairs(entries))
  {
    AcceptedIsMeaningful(entries, []);
    ObjectHoldsPairs(entries, []);
  }

  lemma MeaningKind(n: Cst)
    requires NodeOk(n) && Meaning(n).Some?
    ensures match Meaning(n).value
            case Null | Bool(_) => n.Word?
            case Number(_) => n.Num?
            case String(_) => n.Str?
            case Array(_) => n.Arr?
            case Object(_) => n.Obj?
  {
    hide ArrayMeaning, ObjectMeaning;
    match n
    case Arr(_, items) => ArrayHolds(items, []);
    case Obj(_, entries) => ObjectHolds(entries);
    case _ =>
  }

  lemma {:induction false} SameMeaningAlike(a: Cst, b: Cst)
    requires NodeOk(a) && NodeOk(b) && Meaning(a).Some? && Meaning(a) == Meaning(b)
    ensures Alike(a, b)
    decreases a, 0
  {
    hide ArrayMeaning, ObjectMeaning, Rearranged;
    MeaningKind(a);
    MeaningKind(b);
    match a
    case Num(digits) =>
      DigitsUnique(digits);
      DigitsUnique(b.digits);
    case Arr(_, items) =>
      ArrayHolds(items, []);
      ArrayHolds(b.items, []);
      forall i | 0 <= i < |items|
        ensures ItemOk(items[i]) && ItemOk(b.items[i]) && Alike(items[i].node, b.items[i].node)
      {
        assert ItemOk(items[i]) && ItemOk(b.items[i]);
        SameMeaningAlike(items[i].node, b.items[i].node);
      }
    case Obj(_, entries) =>
      ObjectHolds(entries);
      ObjectHolds(b.entries);
      SamePairsRearranged(entries, b.entries);
    case _ =>
  }

  lemma {:induction false} SamePairsRearranged(xs: seq<Entry>, ys: seq<Entry>)
    requires AllMeaningful(xs) && forall i :: 0 <= i < |xs| ==> EntryOk(xs[i])
    requires AllMeaningful(ys) && forall i :: 0 <= i < |ys| ==> EntryOk(ys[i])
    requires multiset(Pairs(xs)) == multiset(Pairs(ys))
    ensures Rearranged(xs, ys)
    decreases xs, 1
  {
    hide Meaning, NodeOk, TokensText, Alike, Pairs, Meaningful;
    var ps, qs := Pairs(xs), Pairs(ys);
    if xs == [] {
      assert |multiset(qs)| == |multiset(ps)| == 0;
    } else {
      var j := FindSame(ps, qs);
      PairAt(xs, 0);
      PairAt(ys, j);
      PairsWithout(xs, 0);
      PairsWithout(ys, j);
      assert Without(xs, 0) == xs[1..];
      assert EntryOk(ys[j]) && ItemOk(ys[j].item);
      assert Meaningful(xs[0]) && Meaningful(ys[j]);
      BothMeaningful(xs[0], ys[j]);
      SameMeaningAlike(xs[0].item.node, ys[j].item.node);
      SamePairsRearranged(xs[1..], Without(ys, j));
    }
  }

  lemma BothMeaningful(x: Entry, y: Entry)
    requires Meaningful(x) && Meaningful(y)
    ensures EntryOk(x) && EntryOk(y) && ItemOk(x.item) && ItemOk(y.item)
    ensures Meaning(x.item.node).Some? && Meaning(y.item.node).Some?
  {}

  // -----------------------------------------------------------------------
  // Documents

  /** Alike documents are read alike: to the same value, or refused together.
      And documents read to the same value are alike. */
  lemma OrderIsImmaterial(x: Item, y: Item)
    requires ItemOk(x) && ItemOk(y)
    ensures Alike(x.node, y.node) ==> ParseAlone(ItemBytes(x)) == ParseAlone(ItemBytes(y))
    ensures ParseAlone(ItemBytes(x)).Some? && ParseAlone(ItemBytes(x)) == ParseAlone(ItemBytes(y)) ==>
              Alike(x.node, y.node)
  {
    hide ParseAlone, Meaning, ItemBytes, Alike, NodeOk;
    DocumentParse(x);
    DocumentParse(y);
    if Alike(x.node, y.node) {
      AlikeMeans(x.node, y.node);
    }
    if Meaning(x.node).Some? && Meaning(x.node) == Meaning(y.node) {
      SameMeaningAlike(x.node, y.node);
    }
  }

  /** Two accepted documents have the same canonical bytes exactly when they
      differ at most in blanks, escapes and the order of members. */
  lemma SameCanonicalBytes(x: Item, y: Item)
    requires ItemOk(x) && ItemOk(y)
    requires ParseAlone(ItemBytes(x)).Some? && ParseAlone(ItemBytes(y)).Some?
    ensures Alike(x.node, y.node) <==>
              CanonicalBytes(ParseAlone(ItemBytes(x)).value) == CanonicalBytes(ParseAlone(ItemBytes(y)).value)
  {
    hide ParseAlone, ItemBytes, Alike, NodeOk, CanonicalBytes;
    OrderIsImmaterial(x, y);
    var v, w := ParseAlone(ItemBytes(x)).value, ParseAlone(ItemBytes(y)).value;
    ParsedIsProper(ItemBytes(x));
    ParsedIsProper(ItemBytes(y));
    if CanonicalBytes(v) == CanonicalBytes(w) {
      CanonicalInjective(v, w);
    }
  }

  /** Through the pre-screen too: within the size bound, laying a document out
      anew changes neither whether it is accepted nor its value. */
  lemma LayoutIsImmaterial(first: Text, second: Text, x: Item, y: Item)
    requires ItemOk(x) && ItemOk(y) && Alike(x.node, y.node)
    requires Encode(first) == ItemBytes(x) && Encode(second) == ItemBytes(y)
    ensures |Encode(first)| <= MAX_RETAINED_BYTES && |Encode(second)| <= MAX_RETAINED_BYTES ==>
              ParseJson(first) == ParseJson(second)
    ensures |Encode(second)| > MAX_RETAINED_BYTES ==> ParseJson(second).None?
  {
    hide ParseAlone, ItemBytes, Alike, NodeOk, ParseJson, Encode, Nesting;
    OrderIsImmaterial(x, y);
    if ParseJson(first).Some? {
      ScreenOnlyAddsBounds(first, ParseJson(first).value);
      ScreenOnlyAddsBounds(second, ParseJson(first).value);
    }
    if ParseJson(second).Some? {
      ScreenOnlyAddsBounds(first, ParseJson(second).value);
      ScreenOnlyAddsBounds(second, ParseJson(second).value);
    }
  }
}
