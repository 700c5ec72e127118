/** The quote sugar (macro/quote.go): a `'` marker among the children of a
    node wraps what follows it in a `quote` node. Each marker starts a new
    wrapper, and the wrapper receives every later sibling up to the next
    marker: the pointer to the current wrapper is replaced by the next
    marker but never reset to nil, and the wrapper is appended once per
    sibling it receives, so the rebuilt node holds several references to
    one wrapper. The model keeps the pointers explicit: the children being
    built are slots that hold either a finished tree or the number of a
    wrapper, and the wrappers' contents are resolved when the node is
    finished. */
module QuoteMacro {

  import opened Outcomes
  import opened Sexpr
  import opened Walker

  const Marker: string := "'"
  const TranslationFailed: string := "quote macro translation failed"

  function Identifier(): string {
    Marker
  }

  datatype Slot = Direct(node: Sexp) | Wrapped(id: nat)

  /** The children built so far, the contents of every wrapper allocated so
      far, and the wrapper the `quoted` variable points to. */
  datatype Building = Building(slots: seq<Slot>, wrappers: seq<seq<Sexp>>, quoted: Option<nat>)

  predicate ValidBuilding(b: Building) {
    (forall k :: 0 <= k < |b.slots| && b.slots[k].Wrapped? ==> b.slots[k].id < |b.wrappers|)
    && (b.quoted.Some? ==> b.quoted.value < |b.wrappers|)
  }

  function ResolveSlot(s: Slot, wrappers: seq<seq<Sexp>>): Sexp
    requires s.Wrapped? ==> s.id < |wrappers|
  {
    match s
    case Direct(n) => n
    case Wrapped(w) => NewSexpression("quote", wrappers[w])
  }

  /** The finished children: every slot with the final contents of its
      wrapper. */
  function Resolve(b: Building): (r: seq<Sexp>)
    requires ValidBuilding(b)
    ensures |r| == |b.slots|
    ensures forall k :: 0 <= k < |b.slots| ==> r[k] == ResolveSlot(b.slots[k], b.wrappers)
  {
    seq(|b.slots|, k requires 0 <= k < |b.slots| => ResolveSlot(b.slots[k], b.wrappers))
  }

  /** `translate_rec`: an atomic node is copied; a compound node is rebuilt
      under its kind from its translated children. (The Go code translates
      a deep copy of each child; `TranslateIgnoresCopy` shows that the copy
      makes no difference.) */
  function Translate(e: Sexp): Sexp
    decreases e, 1
  {
    if IsAtomic(e) then DeepCopy(e)
    else
      var b := TranslateChildren(e.children, Building([], [], None));
      NewSexpression(e.kind, Resolve(b))
  }

  /** The loop of `translate_rec` over the children. A marker allocates a
      fresh wrapper and is dropped; any other child is translated, appended
      to the current wrapper if there is one, and the wrapper (or else the
      child itself) is appended to the node. */
  function TranslateChildren(cs: seq<Sexp>, b: Building): (r: Building)
    requires ValidBuilding(b)
    ensures ValidBuilding(r)
    decreases cs, 0
  {
    if |cs| == 0 then b
    else if cs[0].kind == Marker then
      TranslateChildren(cs[1..], b.(wrappers := b.wrappers + [[]], quoted := Some(|b.wrappers|)))
    else
      var x := Translate(cs[0]);
      match b.quoted
      case None => TranslateChildren(cs[1..], b.(slots := b.slots + [Direct(x)]))
      case Some(w) =>
        TranslateChildren(cs[1..], b.(slots := b.slots + [Wrapped(w)],
                                      wrappers := b.wrappers[w := b.wrappers[w] + [x]]))
  }

  // ---------------------------------------------------------------------
  // The same rebuilding on values: a marker opens a group; every later
  // sibling joins it; when the group closes (at the next marker or at the
  // end) it is emitted once per member, each time as a `quote` node of all
  // its members.

  function Repeat(n: nat, x: Sexp): (r: seq<Sexp>)
    ensures |r| == n && forall k :: 0 <= k < n ==> r[k] == x
  {
    if n == 0 then [] else Repeat(n - 1, x) + [x]
  }

  function Flush(group: Option<seq<Sexp>>): seq<Sexp> {
    match group
    case None => []
    case Some(g) => Repeat(|g|, NewSexpression("quote", g))
  }

  function Groups(cs: seq<Sexp>, done: seq<Sexp>, group: Option<seq<Sexp>>): seq<Sexp>
    decreases |cs|
  {
    if |cs| == 0 then done + Flush(group)
    else if cs[0].kind == Marker then Groups(cs[1..], done + Flush(group), Some([]))
    else
      match group
      case None => Groups(cs[1..], done + [Translate(cs[0])], None)
      case Some(g) => Groups(cs[1..], done, Some(g + [Translate(cs[0])]))
  }

  /** How a building state corresponds to the value-level reading: the
      slots of the current wrapper are the last ones, one per member, and
      the earlier slots resolve to `done`. */
  predicate Corresponds(b: Building, done: seq<Sexp>, group: Option<seq<Sexp>>) {
    ValidBuilding(b)
    && match b.quoted
       case None => group.None? && Resolve(b) == done
       case Some(w) =>
         var n := |b.wrappers[w]|;
         group == Some(b.wrappers[w]) && w == |b.wrappers| - 1 && n <= |b.slots|
         && (forall k :: |b.slots| - n <= k < |b.slots| ==> b.slots[k] == Wrapped(w))
         && (forall k :: 0 <= k < |b.slots| - n && b.slots[k].Wrapped? ==> b.slots[k].id < w)
         && Resolve(b)[..|b.slots| - n] == done
  }

  lemma CorrespondsFlush(b: Building, done: seq<Sexp>, group: Option<seq<Sexp>>)
    requires Corresponds(b, done, group)
    ensures Resolve(b) == done + Flush(group)
  {
    if b.quoted.Some? {
      var w := b.quoted.value;
      var n := |b.wrappers[w]|;
      var r := Resolve(b);
      assert r == r[..|b.slots| - n] + r[|b.slots| - n..];
      assert r[|b.slots| - n..] == Repeat(n, NewSexpression("quote", b.wrappers[w]));
    } else {
      assert done + [] == done;
    }
  }

  lemma {:induction false} TranslateChildrenGroups(cs: seq<Sexp>, b: Building, done: seq<Sexp>, group: Option<seq<Sexp>>)
    requires Corresponds(b, done, group)
    ensures Resolve(TranslateChildren(cs, b)) == Groups(cs, done, group)
    decreases |cs|
  {
    if |cs| == 0 {
      CorrespondsFlush(b, done, group);
    } else if cs[0].kind == Marker {
      CorrespondsFlush(b, done, group);
      var b1 := b.(wrappers := b.wrappers + [[]], quoted := Some(|b.wrappers|));
      assert Resolve(b1) == Resolve(b);
      assert Resolve(b1)[..|b1.slots| - 0] == Resolve(b1);
      TranslateChildrenGroups(cs[1..], b1, done + Flush(group), Some([]));
    } else {
      var x := Translate(cs[0]);
      match b.quoted
      case None =>
        var b1 := b.(slots := b.slots + [Direct(x)]);
        assert Resolve(b1) == Resolve(b) + [x];
        TranslateChildrenGroups(cs[1..], b1, done + [x], None);
      case Some(w) =>
        var n := |b.wrappers[w]|;
        var b1 := b.(slots := b.slots + [Wrapped(w)], wrappers := b.wrappers[w := b.wrappers[w] + [x]]);
        assert Resolve(b1)[..|b1.slots| - (n + 1)] == Resolve(b)[..|b.slots| - n];
        TranslateChildrenGroups(cs[1..], b1, done, Some(b.wrappers[w] + [x]));
    }
  }

  /** The pointer model and the group reading agree on every input. */
  lemma TranslateByGroups(e: Sexp)
    requires !IsAtomic(e)
    ensures Translate(e) == NewSexpression(e.kind, Groups(e.children, [], None))
  {
    TranslateChildrenGroups(e.children, Building([], [], None), [], None);
  }

  /** Markerless trees come out as deep copies. */
  lemma {:induction false} NoMarkersCopies(e: Sexp)
    requires NoKind(e, Marker)
    ensures Translate(e) == DeepCopy(e)
    decreases e, 1
  {
    if !IsAtomic(e) {
      TranslateByGroups(e);
      NoMarkersGroups(e.children, []);
      assert DeepCopyAll(e.children) == [] + DeepCopyAll(e.children);
    }
  }

  lemma {:induction false} NoMarkersGroups(cs: seq<Sexp>, done: seq<Sexp>)
    requires forall i :: 0 <= i < |cs| ==> NoKind(cs[i], Marker)
    ensures Groups(cs, done, None) == done + DeepCopyAll(cs)
    decreases cs, 0
  {
    if |cs| == 0 {
      assert done + [] == done;
    } else {
      var c := cs[0];
      assert NoKind(c, Marker);
      assert Groups(cs, done, None) == Groups(cs[1..], done + [Translate(c)], None);
      NoMarkersCopies(c);
      assert forall i :: 0 <= i < |cs[1..]| ==> cs[1..][i] == cs[i + 1];
      NoMarkersGroups(cs[1..], done + [DeepCopy(c)]);
      assert DeepCopyAll(cs) == [DeepCopy(c)] + DeepCopyAll(cs[1..]);
      Associative(done, [DeepCopy(c)], DeepCopyAll(cs[1..]));
    }
  }

  lemma Associative(a: seq<Sexp>, b: seq<Sexp>, c: seq<Sexp>)
    ensures a + b + c == a + (b + c)
  {
  }

  /** Translating a deep copy is translating the original. */
  lemma {:induction false} TranslateIgnoresCopy(e: Sexp)
    ensures Translate(DeepCopy(e)) == Translate(e)
    decreases e, 1
  {
    if !IsAtomic(e) {
      TranslateByGroups(e);
      TranslateByGroups(DeepCopy(e));
      GroupsIgnoreCopy(e.children, [], None);
    }
  }

  lemma {:induction false} GroupsIgnoreCopy(cs: seq<Sexp>, done: seq<Sexp>, group: Option<seq<Sexp>>)
    ensures Groups(DeepCopyAll(cs), done, group) == Groups(cs, done, group)
    decreases cs, 0
  {
    if |cs| > 0 {
      var ds := DeepCopyAll(cs);
      assert ds[1..] == DeepCopyAll(cs[1..]);
      assert ds[0].kind == cs[0].kind;
      TranslateIgnoresCopy(cs[0]);
      if cs[0].kind == Marker {
        GroupsIgnoreCopy(cs[1..], done + Flush(group), Some([]));
      } else {
        match group
        case None => GroupsIgnoreCopy(cs[1..], done + [Translate(cs[0])], None);
        case Some(g) => GroupsIgnoreCopy(cs[1..], done, Some(g + [Translate(cs[0])]));
      }
    }
  }

  /** The aliasing made visible: after one marker, two siblings both become
      the same wrapper holding both of them; a trailing marker vanishes. */
  lemma SharedWrapper(kind: string, a: Sexp, b: Sexp)
    requires IsAtomic(a) && IsAtomic(b) && a.kind != Marker && b.kind != Marker
    ensures var q := NewSexpression("quote", [a, b]);
            Translate(NewSexpression(kind, [NewAtomic(Marker, Marker), a, b])) == NewSexpression(kind, [q, q])
    ensures Translate(NewSexpression(kind, [a, NewAtomic(Marker, Marker)])) == NewSexpression(kind, [a])
  {
    var m := NewAtomic(Marker, Marker);
    var none: seq<Sexp> := [];
    assert Translate(a) == a && Translate(b) == b;
    var q := NewSexpression("quote", [a, b]);
    calc {
      Groups([m, a, b], none, None);
      { assert [m, a, b][1..] == [a, b]; }
      Groups([a, b], none + Flush(None), Some(none));
      { assert none + Flush(None) == none && [a, b][1..] == [b]; }
      Groups([b], none, Some(none + [a]));
      { assert [b][1..] == none && none + [a] + [b] == [a, b]; }
      Groups(none, none, Some([a, b]));
      { assert Repeat(2, q) == [q, q]; }
      [q, q];
    }
    TranslateByGroups(NewSexpression(kind, [m, a, b]));
    calc {
      Groups([a, m], none, None);
      { assert [a, m][1..] == [m]; }
      Groups([m], none + [a], None);
      { assert [m][1..] == none && none + [a] + Flush(None) == [a]; }
      Groups(none, [a], Some(none));
    }
    assert [a] + Flush(Some(none)) == [a];
    TranslateByGroups(NewSexpression(kind, [a, m]));
  }

  /** A second marker starts a new wrapper: `(k ' a ' b)` becomes
      `(k (quote a) (quote b))`. */
  lemma MarkerStartsWrapper(kind: string, a: Sexp, b: Sexp)
    requires IsAtomic(a) && IsAtomic(b) && a.kind != Marker && b.kind != Marker
    ensures var m := NewAtomic(Marker, Marker);
            Translate(NewSexpression(kind, [m, a, m, b]))
            == NewSexpression(kind, [NewSexpression("quote", [a]), NewSexpression("quote", [b])])
  {
    var m := NewAtomic(Marker, Marker);
    var none: seq<Sexp> := [];
    assert Translate(a) == a && Translate(b) == b;
    var qa, qb := NewSexpression("quote", [a]), NewSexpression("quote", [b]);
    calc {
      Groups([m, a, m, b], none, None);
      { assert [m, a, m, b][1..] == [a, m, b]; }
      Groups([a, m, b], none + Flush(None), Some(none));
      { assert none + Flush(None) == none && [a, m, b][1..] == [m, b]; }
      Groups([m, b], none, Some(none + [a]));
      { assert [m, b][1..] == [b] && none + [a] == [a]; }
      Groups([b], none + Flush(Some([a])), Some(none));
      { assert Repeat(1, qa) == [qa] && none + Flush(Some([a])) == [qa] && [b][1..] == none; }
      Groups(none, [qa], Some(none + [b]));
      { assert none + [b] == [b] && Repeat(1, qb) == [qb]; }
      [qa, qb];
    }
    TranslateByGroups(NewSexpression(kind, [m, a, m, b]));
  }

  // ---------------------------------------------------------------------
  // The visitor.

  datatype QuoteState = QuoteState(sexp: Sexp)

  function NewQuoteMacro(): QuoteState {
    QuoteState(NewSexpression("root", []))
  }

  function Before(t: QuoteState): QuoteState {
    QuoteState(NewSexpression("root", []))
  }

  function After(t: QuoteState): QuoteState {
    t
  }

  /** `Enter`: only the root is translated, and the walk never descends. */
  function Enter(t: QuoteState, e: Sexp): (QuoteState, Outcome<bool>) {
    if e.kind == "root" then (QuoteState(Translate(e)), Ok(false)) else (t, Ok(false))
  }

  function Leave(t: QuoteState, e: Sexp): (QuoteState, Outcome<Unit>) {
    (t, Ok(Unit))
  }

  function Result(t: QuoteState): (r: Outcome<Sexp>)
    ensures r.Fail? <==> |t.sexp.children| == 0
    ensures r.Fail? ==> r.error == Error(TranslationFailed)
    ensures r.Ok? ==> r.value == t.sexp
  {
    if |t.sexp.children| == 0 then Fail(Error(TranslationFailed)) else Ok(t.sexp)
  }

  function Visitor(): Walker.Visitor<QuoteState> {
    Walker.Visitor(Before, Enter, Leave, After)
  }

  function Pass(e: Sexp): (Outcome<Unit>, Outcome<Sexp>) {
    var (t, res) := Walk(Visitor(), NewQuoteMacro(), e);
    (res, Result(t))
  }

  /** The quote pass never fails its walk; its result is the translated
      root, and it fails when the walked tree is not a root or the
      translation has no children. */
  lemma PassTranslatesRoot(e: Sexp)
    ensures var (walk, result) := Pass(e);
            walk == Ok(Unit)
            && (e.kind == "root" && !IsAtomic(e) ==> result == if |Translate(e).children| == 0 then Fail(Error(TranslationFailed)) else Ok(Translate(e)))
            && (e.kind != "root" || IsAtomic(e) ==> result == Fail(Error(TranslationFailed)))
  {
  }

  /** A marker followed by one markerless parsed tree wraps that tree in a
      `quote` node. */
  lemma MarkerWrapsNext(kind: string, x: Sexp)
    requires NoKind(x, Marker) && Normal(x) && x.kind != Marker
    ensures Translate(NewSexpression(kind, [NewAtomic(Marker, Marker), x]))
            == NewSexpression(kind, [NewSexpression("quote", [x])])
  {
    var m := NewAtomic(Marker, Marker);
    var none: seq<Sexp> := [];
    NoMarkersCopies(x);
    DeepCopyOfNormal(x);
    var q := NewSexpression("quote", [x]);
    calc {
      Groups([m, x], none, None);
      { assert [m, x][1..] == [x]; }
      Groups([x], none + Flush(None), Some(none));
      { assert none + Flush(None) == none && [x][1..] == none && none + [x] == [x]; }
      Groups(none, none, Some([x]));
      { assert Repeat(1, q) == [q]; }
      [q];
    }
    TranslateByGroups(NewSexpression(kind, [m, x]));
  }

  /** The sugar of the quote test: `'(+ 13 4 4 5)` under the root becomes
      `(quote (+ 13 4 4 5))`. */
  lemma QuoteTestTree()
    ensures var plus := NewSexpression("+", [NewAtomic("int", "13"), NewAtomic("int", "4"),
                                             NewAtomic("int", "4"), NewAtomic("int", "5")]);
            Pass(NewSexpression("root", [NewAtomic(Marker, Marker), plus])).1
              == Ok(NewSexpression("root", [NewSexpression("quote", [plus])]))
  {
    var plus := NewSexpression("+", [NewAtomic("int", "13"), NewAtomic("int", "4"),
                                     NewAtomic("int", "4"), NewAtomic("int", "5")]);
    assert NoKind(plus, Marker) by {
      assert forall i :: 0 <= i < |plus.children| ==> NoKind(plus.children[i], Marker);
    }
    assert Normal(plus) by {
      assert forall i :: 0 <= i < |plus.children| ==> Normal(plus.children[i]);
    }
    MarkerWrapsNext("root", plus);
    PassTranslatesRoot(NewSexpression("root", [NewAtomic(Marker, Marker), plus]));
  }
}
