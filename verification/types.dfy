/** Value types (types/type.go): a type is a name, an id handed out by an
    append-only counter, and a bit mask of properties. */
module Types {

  /** The property bits, `1 << iota` in declaration order. */
  const Primitive: bv32 := 1
  const Collection: bv32 := 2
  const Symbol: bv32 := 4
  const Numeric: bv32 := 8
  const Expression: bv32 := 16

  const Properties: seq<bv32> := [Primitive, Collection, Symbol, Numeric, Expression]

  datatype Type = Type(name: string, id: int, mask: bv32)

  /** `HasProperty`: every bit of `p` is set in the mask. */
  predicate HasProperty(t: Type, p: bv32) {
    t.mask & p == p
  }

  /** The id counter `tidx`, recorded as the list of types issued so far:
      the next id is the number of types already issued. */
  datatype TypeCounter = TypeCounter(issued: seq<Type>)

  predicate ValidCounter(c: TypeCounter) {
    forall i :: 0 <= i < |c.issued| ==> c.issued[i].id == i
  }

  /** `NewTypeWithProperties`; `NewType` is the same with an empty mask. */
  function NewTypeWithProperties(c: TypeCounter, name: string, mask: bv32): (r: (Type, TypeCounter))
    requires ValidCounter(c)
    ensures ValidCounter(r.1)
    ensures r.0 == Type(name, |c.issued|, mask)
    ensures r.1.issued == c.issued + [r.0]
    ensures forall t :: t in c.issued ==> t.id != r.0.id
  {
    var t := Type(name, |c.issued|, mask);
    (t, TypeCounter(c.issued + [t]))
  }

  function NewType(c: TypeCounter, name: string): (r: (Type, TypeCounter))
    requires ValidCounter(c)
    ensures ValidCounter(r.1)
    ensures r.0 == Type(name, |c.issued|, 0)
    ensures r.1.issued == c.issued + [r.0]
    ensures forall t :: t in c.issued ==> t.id != r.0.id
  {
    NewTypeWithProperties(c, name, 0)
  }

  /** The built-in types, in declaration order. */
  const TypeNil := Type("nil", 0, 0)
  const TypeUnknown := Type("nil", 1, 0)
  const TypeString := Type("string", 2, Primitive)
  const TypeKeyword := Type("keyword", 3, Symbol)
  const TypeInt := Type("integer", 4, Primitive)
  const TypeSymbol := Type("symbol", 5, Symbol)
  const TypeDictionary := Type("dict", 6, Collection)
  const TypeVector := Type("vector", 7, Collection)
  const TypeCharSequence := Type("charseq", 8, Primitive)
  const TypeSexpression := Type("sexp", 9, Expression)

  const BuiltinTypes: seq<Type> := [TypeNil, TypeUnknown, TypeString, TypeKeyword, TypeInt,
                                    TypeSymbol, TypeDictionary, TypeVector, TypeCharSequence,
                                    TypeSexpression]

  /** Issues the built-in types in declaration order from a fresh counter. */
  function IssueBuiltins(): (c: TypeCounter)
    ensures ValidCounter(c)
  {
    var c0 := TypeCounter([]);
    var (_, c1) := NewType(c0, "nil");
    var (_, c2) := NewType(c1, "nil");
    var (_, c3) := NewTypeWithProperties(c2, "string", Primitive);
    var (_, c4) := NewTypeWithProperties(c3, "keyword", Symbol);
    var (_, c5) := NewTypeWithProperties(c4, "integer", Primitive);
    var (_, c6) := NewTypeWithProperties(c5, "symbol", Symbol);
    var (_, c7) := NewTypeWithProperties(c6, "dict", Collection);
    var (_, c8) := NewTypeWithProperties(c7, "vector", Collection);
    var (_, c9) := NewTypeWithProperties(c8, "charseq", Primitive);
    var (_, c10) := NewTypeWithProperties(c9, "sexp", Expression);
    c10
  }

  /** The constants above are exactly what the declaration sequence issues:
      ids 0..9 in order, and no id is shared. */
  lemma BuiltinTypesIssuedInOrder()
    ensures IssueBuiltins().issued == BuiltinTypes
    ensures forall i, j :: 0 <= i < j < |BuiltinTypes| ==> BuiltinTypes[i].id != BuiltinTypes[j].id
  {
  }

  /** The five property bits are distinct single bits. */
  lemma PropertyBitsDistinct()
    ensures Primitive == 1 && Collection == 2 && Symbol == 4 && Numeric == 8 && Expression == 16
    ensures forall i, j :: 0 <= i < j < |Properties| ==> Properties[i] & Properties[j] == 0
  {
  }

  /** The empty property is held by every type. */
  lemma HasEmptyProperty(t: Type)
    ensures HasProperty(t, 0)
  {
  }

  /** No built-in type is Numeric: `integer` is only Primitive. */
  lemma NoBuiltinIsNumeric()
    ensures forall t :: t in BuiltinTypes ==> !HasProperty(t, Numeric)
    ensures HasProperty(TypeInt, Primitive)
  {
  }

  /** `nil` and the unknown type share their name but not their id. */
  lemma NilAndUnknownDiffer()
    ensures TypeNil.name == TypeUnknown.name && TypeNil != TypeUnknown
  {
  }
}
