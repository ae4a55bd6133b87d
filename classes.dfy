/**
 * Design-token class tables (src/tokens/classes.ts): the margin and padding
 * class factories, the seven-direction tables built from them, and the
 * alignment classes. The spacing scale and its values come from
 * src/tokens/spacing.ts.
 */
module Classes {
  import Text

  /** The keys of `spacingValues`. */
  datatype SpacingScale = SpaceNone | Xs | Sm | Md | Lg | Xl | Xxl

  /** The keys in the order `Object.entries(spacingValues)` yields them. */
  const SpacingKeys: seq<SpacingScale> := [SpaceNone, Xs, Sm, Md, Lg, Xl, Xxl]

  /** `spacingValues`: the Tailwind spacing step of each key. */
  function SpacingValue(k: SpacingScale): string {
    match k
    case SpaceNone => "0"
    case Xs => "1"
    case Sm => "2"
    case Md => "4"
    case Lg => "6"
    case Xl => "8"
    case Xxl => "12"
  }

  /** The class a factory stores under key `k` for `prefix`: `${prefix}-${value}`. */
  function ClassFor(prefix: string, k: SpacingScale): string {
    prefix + "-" + SpacingValue(k)
  }

  /** `t` maps every spacing key to its class for `prefix`. */
  predicate ClassTable(t: map<SpacingScale, string>, prefix: string) {
    forall k: SpacingScale :: k in t && t[k] == ClassFor(prefix, k)
  }

  /**
   * `createMarginClasses(prefix)` and `createPaddingClasses(prefix)`, whose
   * bodies are identical: an accumulator record filled key by key in the
   * order of `Object.entries(spacingValues)`.
   */
  method CreateSpacingClasses(prefix: string) returns (acc: map<SpacingScale, string>)
    ensures ClassTable(acc, prefix)
  {
    acc := map[];
    for i := 0 to |SpacingKeys|
      invariant forall j :: 0 <= j < i ==> SpacingKeys[j] in acc
      invariant forall k :: k in acc ==> acc[k] == ClassFor(prefix, k)
    {
      var key := SpacingKeys[i];
      acc := acc[key := prefix + "-" + SpacingValue(key)];
    }
    forall k: SpacingScale ensures k in acc {
      match k
      case SpaceNone => assert k == SpacingKeys[0];
      case Xs => assert k == SpacingKeys[1];
      case Sm => assert k == SpacingKeys[2];
      case Md => assert k == SpacingKeys[3];
      case Lg => assert k == SpacingKeys[4];
      case Xl => assert k == SpacingKeys[5];
      case Xxl => assert k == SpacingKeys[6];
    }
  }

  /** The seven keys of `marginClasses` and `paddingClasses`. */
  datatype Direction = Top | Bottom | Left | Right | All | Vertical | Horizontal

  function MarginPrefix(d: Direction): string {
    match d
    case Top => "mt"
    case Bottom => "mb"
    case Left => "ml"
    case Right => "mr"
    case All => "m"
    case Vertical => "my"
    case Horizontal => "mx"
  }

  function PaddingPrefix(d: Direction): string {
    match d
    case Top => "pt"
    case Bottom => "pb"
    case Left => "pl"
    case Right => "pr"
    case All => "p"
    case Vertical => "py"
    case Horizontal => "px"
  }

  /** `marginClasses[d][k]`, the entry the components look up. */
  function MarginClass(d: Direction, k: SpacingScale): (c: string)
    ensures c == MarginPrefix(d) + "-" + SpacingValue(k)
  {
    ClassFor(MarginPrefix(d), k)
  }

  /** A table stored under a direction is what is found there. */
  lemma TableAt(tables: map<Direction, map<SpacingScale, string>>, d: Direction, t: map<SpacingScale, string>, prefix: string)
    requires d in tables && tables[d] == t && ClassTable(t, prefix)
    ensures ClassTable(tables[d], prefix)
  {
  }

  /** The `marginClasses` table: one factory call per direction. */
  method BuildMarginClasses() returns (tables: map<Direction, map<SpacingScale, string>>)
    ensures forall d: Direction :: d in tables && ClassTable(tables[d], MarginPrefix(d))
  {
    var top := CreateSpacingClasses(MarginPrefix(Top));
    var bottom := CreateSpacingClasses(MarginPrefix(Bottom));
    var left := CreateSpacingClasses(MarginPrefix(Left));
    var right := CreateSpacingClasses(MarginPrefix(Right));
    var all := CreateSpacingClasses(MarginPrefix(All));
    var vertical := CreateSpacingClasses(MarginPrefix(Vertical));
    var horizontal := CreateSpacingClasses(MarginPrefix(Horizontal));
    tables := map[Top := top, Bottom := bottom, Left := left, Right := right,
                  All := all, Vertical := vertical, Horizontal := horizontal];
    forall d: Direction ensures d in tables && ClassTable(tables[d], MarginPrefix(d)) {
      match d
      case Top => TableAt(tables, d, top, MarginPrefix(d));
      case Bottom => TableAt(tables, d, bottom, MarginPrefix(d));
      case Left => TableAt(tables, d, left, MarginPrefix(d));
      case Right => TableAt(tables, d, right, MarginPrefix(d));
      case All => TableAt(tables, d, all, MarginPrefix(d));
      case Vertical => TableAt(tables, d, vertical, MarginPrefix(d));
      case Horizontal => TableAt(tables, d, horizontal, MarginPrefix(d));
    }
  }

  /** The `paddingClasses` table: one factory call per direction. */
  method BuildPaddingClasses() returns (tables: map<Direction, map<SpacingScale, string>>)
    ensures forall d: Direction :: d in tables && ClassTable(tables[d], PaddingPrefix(d))
  {
    var top := CreateSpacingClasses(PaddingPrefix(Top));
    var bottom := CreateSpacingClasses(PaddingPrefix(Bottom));
    var left := CreateSpacingClasses(PaddingPrefix(Left));
    var right := CreateSpacingClasses(PaddingPrefix(Right));
    var all := CreateSpacingClasses(PaddingPrefix(All));
    var vertical := CreateSpacingClasses(PaddingPrefix(Vertical));
    var horizontal := CreateSpacingClasses(PaddingPrefix(Horizontal));
    tables := map[Top := top, Bottom := bottom, Left := left, Right := right,
                  All := all, Vertical := vertical, Horizontal := horizontal];
    forall d: Direction ensures d in tables && ClassTable(tables[d], PaddingPrefix(d)) {
      match d
      case Top => TableAt(tables, d, top, PaddingPrefix(d));
      case Bottom => TableAt(tables, d, bottom, PaddingPrefix(d));
      case Left => TableAt(tables, d, left, PaddingPrefix(d));
      case Right => TableAt(tables, d, right, PaddingPrefix(d));
      case All => TableAt(tables, d, all, PaddingPrefix(d));
      case Vertical => TableAt(tables, d, vertical, PaddingPrefix(d));
      case Horizontal => TableAt(tables, d, horizontal, PaddingPrefix(d));
    }
  }

  /**
   * No two entries of `marginClasses` share a class name: the direction and
   * the spacing step can be read back from the class.
   */
  lemma MarginClassInjective(d1: Direction, k1: SpacingScale, d2: Direction, k2: SpacingScale)
    requires MarginClass(d1, k1) == MarginClass(d2, k2)
    ensures d1 == d2 && k1 == k2
  {
    var p1, v1 := MarginPrefix(d1), SpacingValue(k1);
    var p2, v2 := MarginPrefix(d2), SpacingValue(k2);
    Text.SplitThree(p1, v1, "", '-');
    Text.SplitThree(p2, v2, "", '-');
    assert p1 + ['-'] + v1 + ['-'] + "" == MarginClass(d1, k1) + "-";
    assert p2 + ['-'] + v2 + ['-'] + "" == MarginClass(d2, k2) + "-";
  }

  /** The margin and padding factories produce disjoint class names. */
  lemma MarginPaddingDisjoint(d1: Direction, k1: SpacingScale, d2: Direction, k2: SpacingScale)
    ensures MarginClass(d1, k1) != ClassFor(PaddingPrefix(d2), k2)
  {
    assert MarginClass(d1, k1)[0] == 'm';
    assert ClassFor(PaddingPrefix(d2), k2)[0] == 'p';
  }

  datatype Align = AlignLeft | AlignCenter | AlignRight

  /** `alignClasses`: horizontal justification of the wrapper. */
  function AlignClass(a: Align): (c: string)
    ensures a == AlignLeft ==> c == "justify-start"
    ensures a == AlignCenter ==> c == "justify-center"
    ensures a == AlignRight ==> c == "justify-end"
  {
    match a
    case AlignLeft => "justify-start"
    case AlignCenter => "justify-center"
    case AlignRight => "justify-end"
  }
}
