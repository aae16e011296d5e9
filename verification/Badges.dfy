/** The marks an account holds, kept as a comma-separated column beside the one
    it wears, against the plain list of kinds they stand for. */
module Badges {
  import opened Basics

  datatype Account = Account(earned: Option<string>, badge: Option<string>)
  {
    /** The column is set and not empty. */
    predicate Wears()
    {
      badge.Some? && badge.value != []
    }
  }

  // ----- text

  /** `split(",")` of `cur` followed by `s`. */
  function Split(s: string, cur: string): seq<string>
  {
    if s == [] then [cur]
    else if s[0] == ',' then [cur] + Split(s[1..], [])
    else Split(s[1..], cur + [s[0]])
  }

  /** The pieces, stripped, without the empty ones. */
  function Kinds(pieces: seq<string>): seq<string>
  {
    if pieces == [] then []
    else if Strip(pieces[0]) == [] then Kinds(pieces[1..])
    else [Strip(pieces[0])] + Kinds(pieces[1..])
  }

  function Join(ks: seq<string>): string
  {
    if ks == [] then [] else if |ks| == 1 then ks[0] else ks[0] + [','] + Join(ks[1..])
  }

  /** A kind the column can carry: not empty, no comma, no space at either end. */
  predicate Token(k: string)
  {
    k != [] && (forall i | 0 <= i < |k| :: k[i] != ',') && !Space(k[0]) && !Space(k[|k| - 1])
  }

  predicate Tokens(ks: seq<string>)
  {
    forall i | 0 <= i < |ks| :: Token(ks[i])
  }

  // ----- the operations

  function Column(u: Account): string
  {
    if u.earned.Some? then Strip(u.earned.value) else []
  }

  function Earned(u: Account): seq<string>
  {
    if Column(u) != [] then
      var out := Kinds(Split(Column(u), []));
      if u.Wears() && u.badge.value !in out then out + [u.badge.value] else out
    else if u.Wears() then [u.badge.value] else []
  }

  function Without(ks: seq<string>, kind: string): seq<string>
  {
    if ks == [] then [] else if ks[0] == kind then Without(ks[1..], kind) else [ks[0]] + Without(ks[1..], kind)
  }

  function Grant(u: Account, kind: string): Account
  {
    var held := Earned(u);
    Account(Some(Join(if kind in held then held else held + [kind])), if u.Wears() then u.badge else Some(kind))
  }

  function Revoke(u: Account, kind: string): Account
  {
    var held := Without(Earned(u), kind);
    Account(Some(Join(held)), if u.badge != Some(kind) then u.badge else if held != [] then Some(held[0]) else None)
  }

  class User {
    var badgesEarned: Option<string>
    var badge: Option<string>

    function Value(): Account
      reads this
    {
      Account(badgesEarned, badge)
    }

    constructor (u: Account)
      ensures Value() == u
    {
      badgesEarned, badge := u.earned, u.badge;
    }

    method GrantBadge(kind: string)
      modifies this
      ensures Value() == Grant(old(Value()), kind)
      ensures badge == if old(badge).None? || old(badge).value == [] then Some(kind) else old(badge)
    {
      var held := Earned(Value());
      if kind !in held { held := held + [kind]; }
      badgesEarned := Some(Join(held));
      if badge.None? || badge.value == [] { badge := Some(kind); }
    }

    method RevokeBadge(kind: string)
      modifies this
      ensures Value() == Revoke(old(Value()), kind)
    {
      var all, held := Earned(Value()), [];
      for i := 0 to |all|
        invariant held + Without(all[i..], kind) == Without(all, kind)
      {
        if all[i] != kind { held := held + [all[i]]; }
      }
      assert held == Without(all, kind);
      badgesEarned := Some(Join(held));
      if badge == Some(kind) { badge := if held != [] then Some(held[0]) else None; }
    }
  }

  // ----- the specification: a list of kinds and the one on display

  datatype Shelf = Shelf(held: seq<string>, worn: Option<string>)

  datatype Op = Give(kind: string) | Take(kind: string)

  function SpecStep(s: Shelf, op: Op): Shelf
  {
    match op
    case Give(k) =>
      Shelf(if k in s.held then s.held else s.held + [k], if s.worn.Some? then s.worn else Some(k))
    case Take(k) =>
      var held := Without(s.held, k);
      Shelf(held, if s.worn != Some(k) then s.worn else if held != [] then Some(held[0]) else None)
  }

  function Step(u: Account, op: Op): Account
  {
    match op
    case Give(k) => Grant(u, k)
    case Take(k) => Revoke(u, k)
  }

  function View(u: Account): Shelf
  {
    Shelf(Earned(u), if u.Wears() then u.badge else None)
  }

  /** Any row whose worn mark, if any, is a kind: legacy rows with an empty column,
      rows with any text in it, and a worn mark missing from it included. */
  predicate Sound(u: Account)
  {
    u.Wears() ==> Token(u.badge.value)
  }

  // ----- the text round trip

  lemma {:induction false} SplitPiece(piece: string, rest: string, cur: string)
    requires forall i | 0 <= i < |piece| :: piece[i] != ','
    ensures Split(piece + [','] + rest, cur) == [cur + piece] + Split(rest, [])
    ensures Split(piece, cur) == [cur + piece]
    decreases |piece|
  {
    if piece == [] {
      assert piece + [','] + rest == [','] + rest;
      assert cur + piece == cur;
    } else {
      SplitPiece(piece[1..], rest, cur + [piece[0]]);
      assert (piece + [','] + rest)[1..] == piece[1..] + [','] + rest;
      assert cur + [piece[0]] + piece[1..] == cur + piece;
    }
  }

  lemma {:induction false} SplitJoin(ks: seq<string>)
    requires Tokens(ks) && ks != []
    ensures Split(Join(ks), []) == ks
  {
    var k, rest := ks[0], ks[1..];
    assert [] + k == k;
    assert ks == [k] + rest;
    if rest == [] {
      SplitPiece(k, [], []);
    } else {
      assert Tokens(rest);
      SplitJoin(rest);
      SplitPiece(k, Join(rest), []);
    }
  }

  lemma {:induction false} KindsOfTokens(ks: seq<string>)
    requires Tokens(ks)
    ensures Kinds(ks) == ks
  {
    if ks != [] {
      assert Token(ks[0]);
      assert Tokens(ks[1..]);
      KindsOfTokens(ks[1..]);
      assert ks == [ks[0]] + ks[1..];
    }
  }

  lemma {:induction false} JoinEnds(ks: seq<string>)
    requires Tokens(ks) && ks != []
    ensures var j := Join(ks); j != [] && !Space(j[0]) && !Space(j[|j| - 1])
  {
    assert Token(ks[0]);
    if |ks| > 1 {
      assert Tokens(ks[1..]);
      JoinEnds(ks[1..]);
    }
  }

  /** Joining kinds and reading the column back gives the same kinds in order. */
  lemma {:induction false} ColumnRoundTrip(ks: seq<string>)
    requires Tokens(ks)
    ensures Strip(Join(ks)) == Join(ks)
    ensures (Join(ks) == [] <==> ks == []) && (ks != [] ==> Kinds(Split(Join(ks), [])) == ks)
  {
    if ks != [] {
      JoinEnds(ks);
      SplitJoin(ks);
      KindsOfTokens(ks);
    }
  }

  /** An account holds the kinds of its column in order, and behind them the one it
      wears when the column lacks it. */
  lemma {:induction false} EarnedIs(ks: seq<string>, badge: Option<string>)
    requires Tokens(ks)
    ensures Earned(Account(Some(Join(ks)), badge)) ==
            if badge.Some? && badge.value != [] && badge.value !in ks then ks + [badge.value] else ks
    ensures Earned(Account(None, badge)) == if badge.Some? && badge.value != [] then [badge.value] else []
  {
    ColumnRoundTrip(ks);
  }

  // what a column can be read as

  lemma {:induction false} StripEnds(s: string)
    ensures var t := Strip(s); t != [] ==> !Space(t[0]) && !Space(t[|t| - 1])
    ensures (forall i | 0 <= i < |s| :: s[i] != ',') ==> forall i | 0 <= i < |Strip(s)| :: Strip(s)[i] != ','
    decreases |s|
  {
    if s != [] && Space(s[0]) {
      StripEnds(s[1..]);
    } else if s != [] && Space(s[|s| - 1]) {
      StripEnds(s[..|s| - 1]);
    }
  }

  predicate NoCommas(ps: seq<string>)
  {
    forall i | 0 <= i < |ps| :: forall j | 0 <= j < |ps[i]| :: ps[i][j] != ','
  }

  lemma {:induction false} SplitHasNoCommas(s: string, cur: string)
    requires forall i | 0 <= i < |cur| :: cur[i] != ','
    ensures NoCommas(Split(s, cur))
    decreases |s|
  {
    if s != [] {
      if s[0] == ',' { SplitHasNoCommas(s[1..], []); } else { SplitHasNoCommas(s[1..], cur + [s[0]]); }
    }
  }

  lemma {:induction false} KindsAreTokens(ps: seq<string>)
    requires NoCommas(ps)
    ensures Tokens(Kinds(ps))
  {
    if ps != [] {
      StripEnds(ps[0]);
      assert NoCommas(ps[1..]);
      KindsAreTokens(ps[1..]);
    }
  }

  lemma EarnedAreTokens(u: Account)
    requires Sound(u)
    ensures Tokens(Earned(u))
  {
    SplitHasNoCommas(Column(u), []);
    KindsAreTokens(Split(Column(u), []));
  }

  lemma {:induction false} WithoutTokens(ks: seq<string>, kind: string)
    requires Tokens(ks)
    ensures Tokens(Without(ks, kind)) && kind !in Without(ks, kind)
    ensures forall k | k in ks && k != kind :: k in Without(ks, kind)
  {
    if ks != [] {
      assert Tokens(ks[1..]);
      WithoutTokens(ks[1..], kind);
    }
  }

  /** Taking a kind out of a list takes it out of each part and keeps the order. */
  lemma {:induction false} WithoutConcat(a: seq<string>, b: seq<string>, kind: string)
    ensures Without(a + b, kind) == Without(a, kind) + Without(b, kind)
    decreases |a|
  {
    if a == [] {
      assert a + b == b;
    } else {
      assert (a + b)[1..] == a[1..] + b;
      WithoutConcat(a[1..], b, kind);
    }
  }

  lemma {:induction false} WithoutOne(k: string, kind: string)
    ensures Without([k], kind) == if k == kind then [] else [k]
  {
    assert [k][1..] == [];
  }

  /** Revoking the worn one of several different marks puts the first of the others on
      display, and leaves them in order. */
  lemma {:induction false} RevokeWearsNext(u: Account, before: seq<string>, kind: string, rest: seq<string>)
    requires Earned(u) == before + [kind] + rest && u.badge == Some(kind) && kind !in before && kind !in rest
    ensures Revoke(u, kind) ==
            Account(Some(Join(before + rest)),
                    if before != [] then Some(before[0]) else if rest != [] then Some(rest[0]) else None)
  {
    WithoutConcat(before + [kind], rest, kind);
    WithoutConcat(before, [kind], kind);
    WithoutOne(kind, kind);
    WithoutAbsent(before, kind);
    WithoutAbsent(rest, kind);
    assert before + [] + rest == before + rest;
  }

  // ----- the column refines the list

  lemma GrantRefines(u: Account, kind: string)
    requires Sound(u) && Token(kind)
    ensures Sound(Grant(u, kind)) && View(Grant(u, kind)) == SpecStep(View(u), Give(kind))
  {
    var held := Earned(u);
    EarnedAreTokens(u);
    ColumnRoundTrip(if kind in held then held else held + [kind]);
  }

  lemma {:induction false} WithoutAbsent(ks: seq<string>, kind: string)
    requires kind !in ks
    ensures Without(ks, kind) == ks
  {
    if ks != [] { WithoutAbsent(ks[1..], kind); }
  }

  /** A revoke follows the list on every sound row, except that revoking the empty
      string from an account whose column is the empty string puts a held mark on
      display. */
  lemma RevokeRefinesIff(u: Account, kind: string)
    requires Sound(u)
    ensures Sound(Revoke(u, kind))
    ensures View(Revoke(u, kind)) == SpecStep(View(u), Take(kind)) <==>
            !(kind == [] && u.badge == Some([]) && Earned(u) != [])
  {
    EarnedAreTokens(u);
    WithoutTokens(Earned(u), kind);
    ColumnRoundTrip(Without(Earned(u), kind));
    var t, held := Revoke(u, kind), Without(Earned(u), kind);
    assert t.Wears() ==> t.badge.value in held;
    assert Earned(t) == held;
    if kind == [] {
      WithoutAbsent(Earned(u), kind);
      assert held == Earned(u);
    }
  }

  function Run(u: Account, ops: seq<Op>): Account
  {
    if ops == [] then u else Step(Run(u, ops[..|ops| - 1]), ops[|ops| - 1])
  }

  function SpecRun(s: Shelf, ops: seq<Op>): Shelf
  {
    if ops == [] then s else SpecStep(SpecRun(s, ops[..|ops| - 1]), ops[|ops| - 1])
  }

  predicate GoodOp(op: Op)
  {
    if op.Give? then Token(op.kind) else op.kind != []
  }

  predicate GoodOps(ops: seq<Op>)
  {
    forall i | 0 <= i < |ops| :: GoodOp(ops[i])
  }

  /** Over any sequence of grants and revokes, from any sound row, the columns read
      back as the list of kinds in the order they were granted. */
  lemma {:induction false} ColumnsRefineList(u: Account, ops: seq<Op>)
    requires Sound(u) && GoodOps(ops)
    ensures Sound(Run(u, ops)) && View(Run(u, ops)) == SpecRun(View(u), ops)
  {
    if ops != [] {
      var front, op := ops[..|ops| - 1], ops[|ops| - 1];
      assert GoodOps(front);
      ColumnsRefineList(u, front);
      assert GoodOp(op);
      match op
      case Give(k) => GrantRefines(Run(u, front), k);
      case Take(k) => RevokeRefinesIff(Run(u, front), k);
    }
  }

  /** The mark on display is always one that is held, and a grant never replaces it. */
  lemma {:induction false} WornIsHeld(u: Account, ops: seq<Op>, kind: string)
    requires Sound(u) && GoodOps(ops)
    ensures var t := Run(u, ops);
            && (t.Wears() ==> t.badge.value in Earned(t))
            && (t.Wears() ==> Grant(t, kind).badge == t.badge)
            && (kind != [] ==> kind !in Earned(Revoke(t, kind)) && Revoke(t, kind).badge != Some(kind))
  {
    ColumnsRefineList(u, ops);
    var t := Run(u, ops);
    RevokeRefinesIff(t, kind);
    EarnedAreTokens(t);
    WithoutTokens(Earned(t), kind);
  }

  /** Granting a kind works on every sound row if and only if it is a token. */
  lemma GrantRefinesIff(kind: string)
    ensures Token(kind) <==> forall u | Sound(u) :: View(Grant(u, kind)) == SpecStep(View(u), Give(kind))
  {
    if Token(kind) {
      forall u | Sound(u) ensures View(Grant(u, kind)) == SpecStep(View(u), Give(kind)) {
        GrantRefines(u, kind);
      }
    } else {
      var u := Account(None, Some("resident"));
      assert Token("resident");
      assert Earned(u) == ["resident"];
      assert Sound(Grant(u, kind));
      EarnedAreTokens(Grant(u, kind));
      assert kind !in Earned(Grant(u, kind));
      assert kind in SpecStep(View(u), Give(kind)).held;
    }
  }
}
