/** Built-in symbols and special forms, their names, and the conversions
    between names and values (src/symbol.rs). */
module Symbols {
  import opened Wrappers

  datatype SpecialForm =
    | Quote | Cond | If | Begin | Lambda | Let | Define | DefineSyntaxRule
    | Set | SetCar | SetCdr | And | Or | Display | NewLine | BreakPoint
    | Import | Read | Apply

  datatype Symbol =
    | Nil | Atom | NumberP | Eq | Car | Cdr | Cons | T | List
    | Add | Sub | Mul | Div | Remainder | Quotient
    | Floor | Ceiling | Sin | Cos | Abs
    | Gt | Lt | Ge | Le | EqNum
    | User(name: string)

  /** The table of special-form keywords. */
  const SPECIAL_FORMS: map<string, SpecialForm> := map[
    "quote" := Quote, "cond" := Cond, "if" := If, "begin" := Begin,
    "lambda" := Lambda, "let" := Let, "define" := Define,
    "define-syntax-rule" := DefineSyntaxRule, "set!" := Set,
    "set-car!" := SetCar, "set-cdr!" := SetCdr, "and" := And, "or" := Or,
    "display" := Display, "newline" := NewLine, "breakpoint" := BreakPoint,
    "import" := Import, "read" := Read, "apply" := Apply]

  /** The table of built-in symbol names. */
  const SYMBOLS: map<string, Symbol> := map[
    "nil" := Nil, "atom?" := Atom, "number?" := NumberP, "eq?" := Eq,
    "car" := Car, "cdr" := Cdr, "cons" := Cons, "t" := T, "list" := List,
    "+" := Add, "-" := Sub, "*" := Mul, "/" := Div,
    "remainder" := Remainder, "quotient" := Quotient,
    "floor" := Floor, "ceiling" := Ceiling, "sin" := Sin, "cos" := Cos,
    "abs" := Abs, ">" := Gt, "<" := Lt, ">=" := Ge, "<=" := Le, "=" := EqNum]

  /** `Display for SpecialForm`. */
  function FormName(f: SpecialForm): string {
    match f
    case Quote => "quote"
    case Cond => "cond"
    case If => "if"
    case Begin => "begin"
    case Lambda => "lambda"
    case Let => "let"
    case Define => "define"
    case DefineSyntaxRule => "define-syntax-rule"
    case Set => "set!"
    case SetCar => "set-car!"
    case SetCdr => "set-cdr!"
    case And => "and"
    case Or => "or"
    case Display => "display"
    case NewLine => "newline"
    case BreakPoint => "breakpoint"
    case Import => "import"
    case Read => "read"
    case Apply => "apply"
  }

  /** `Display for Symbol`. */
  function SymbolName(s: Symbol): string {
    match s
    case User(name) => name
    case Nil => "nil"
    case Atom => "atom?"
    case NumberP => "number?"
    case Eq => "eq?"
    case Car => "car"
    case Cdr => "cdr"
    case Cons => "cons"
    case T => "t"
    case List => "list"
    case Add => "+"
    case Sub => "-"
    case Mul => "*"
    case Div => "/"
    case Remainder => "remainder"
    case Quotient => "quotient"
    case Floor => "floor"
    case Ceiling => "ceiling"
    case Sin => "sin"
    case Cos => "cos"
    case Abs => "abs"
    case Gt => ">"
    case Lt => "<"
    case Ge => ">="
    case Le => "<="
    case EqNum => "="
  }

  /** `FromStr for SpecialForm`: a lookup in the keyword table. */
  function ParseSpecialForm(s: string): (r: Option<SpecialForm>)
    ensures r.Some? <==> s in SPECIAL_FORMS
  {
    if s in SPECIAL_FORMS then Some(SPECIAL_FORMS[s]) else None
  }

  /** `From<String> for Symbol`: a built-in when the name is in the table,
      otherwise a user-defined symbol of that name. */
  function SymbolFrom(s: string): (r: Symbol)
    ensures r.User? <==> s !in SYMBOLS
  {
    if s in SYMBOLS then SYMBOLS[s] else User(s)
  }

  /** Whether a symbol is one of the built-ins (the SYMBOLS table). */
  predicate IsBuiltin(s: Symbol) { !s.User? }

  /** The keyword table and the rendering agree: a name parses to a form
      exactly when that form is rendered as the name. */
  lemma FormRoundTrip(s: string, f: SpecialForm)
    ensures ParseSpecialForm(s) == Some(f) <==> FormName(f) == s
  {
    ParseFormName(f);
    if s in SPECIAL_FORMS {
      FormNameParse(s);
    }
  }

  /** The name of every form is in the keyword table, under that form. */
  lemma ParseFormName(f: SpecialForm)
    ensures ParseSpecialForm(FormName(f)) == Some(f)
  {
    if f.Quote? || f.Cond? || f.If? || f.Begin? {
      ParseFormName1(f);
    } else if f.Lambda? || f.Let? || f.Define? || f.DefineSyntaxRule? || f.Set? {
      ParseFormName2(f);
    } else {
      ParseFormName3(f);
    }
  }

  lemma ParseFormName1(f: SpecialForm)
    requires f.Quote? || f.Cond? || f.If? || f.Begin?
    ensures ParseSpecialForm(FormName(f)) == Some(f)
  {
  }

  lemma ParseFormName2(f: SpecialForm)
    requires f.Lambda? || f.Let? || f.Define? || f.DefineSyntaxRule? || f.Set?
    ensures ParseSpecialForm(FormName(f)) == Some(f)
  {
  }

  lemma ParseFormName3(f: SpecialForm)
    requires f.SetCar? || f.SetCdr? || f.And? || f.Or? || f.Display? || f.NewLine? || f.BreakPoint? || f.Import? || f.Read? || f.Apply?
    ensures ParseSpecialForm(FormName(f)) == Some(f)
  {
  }

  /** Every keyword of the table is the name of the form it maps to. */
  lemma FormNameParse(s: string)
    requires s in SPECIAL_FORMS
    ensures FormName(SPECIAL_FORMS[s]) == s
  {
  }

  /** Converting a name to a symbol and rendering it gives the name back,
      for every string. */
  lemma NameRoundTrip(s: string)
    ensures SymbolName(SymbolFrom(s)) == s
  {
    if s in SYMBOLS {
      if s in {"nil", "atom?", "number?"} {
        NameLookup1(s);
      } else if s in {"eq?", "car", "cdr"} {
        NameLookup2(s);
      } else if s in {"cons", "t", "list", "+"} {
        NameLookup3(s);
      } else if s in {"-", "*", "/", "remainder", "quotient"} {
        NameLookup4(s);
      } else if s in {"floor", "ceiling", "sin", "cos", "abs"} {
        NameLookup5(s);
      } else {
        NameLookup6(s);
      }
    }
  }

  lemma NameLookup1(s: string)
    requires s in {"nil", "atom?", "number?"}
    ensures s in SYMBOLS && SymbolName(SYMBOLS[s]) == s
  {
  }

  lemma NameLookup2(s: string)
    requires s in {"eq?", "car", "cdr"}
    ensures s in SYMBOLS && SymbolName(SYMBOLS[s]) == s
  {
  }

  lemma NameLookup3(s: string)
    requires s in {"cons", "t", "list", "+"}
    ensures s in SYMBOLS && SymbolName(SYMBOLS[s]) == s
  {
  }

  lemma NameLookup4(s: string)
    requires s in {"-", "*", "/", "remainder", "quotient"}
    ensures s in SYMBOLS && SymbolName(SYMBOLS[s]) == s
  {
  }

  lemma NameLookup5(s: string)
    requires s in {"floor", "ceiling", "sin", "cos", "abs"}
    ensures s in SYMBOLS && SymbolName(SYMBOLS[s]) == s
  {
  }

  lemma NameLookup6(s: string)
    requires s in {">", "<", ">=", "<=", "="}
    ensures s in SYMBOLS && SymbolName(SYMBOLS[s]) == s
  {
  }

  /** Rendering a symbol and converting back gives the symbol again, except
      for a user symbol whose name is taken by a built-in. */
  lemma SymbolRoundTrip(b: Symbol)
    requires b.User? ==> b.name !in SYMBOLS
    ensures SymbolFrom(SymbolName(b)) == b
  {
    if !b.User? {
      if b.Nil? || b.Atom? || b.NumberP? {
        BuiltinRoundTrip1(b);
      } else if b.Eq? || b.Car? || b.Cdr? {
        BuiltinRoundTrip2(b);
      } else if b.Cons? || b.T? || b.List? || b.Add? {
        BuiltinRoundTrip3(b);
      } else if b.Sub? || b.Mul? || b.Div? || b.Remainder? || b.Quotient? {
        BuiltinRoundTrip4(b);
      } else if b.Floor? || b.Ceiling? || b.Sin? || b.Cos? || b.Abs? {
        BuiltinRoundTrip5(b);
      } else {
        BuiltinRoundTrip6(b);
      }
    }
  }

  lemma BuiltinRoundTrip1(b: Symbol)
    requires b.Nil? || b.Atom? || b.NumberP?
    ensures SymbolFrom(SymbolName(b)) == b
  {
  }

  lemma BuiltinRoundTrip2(b: Symbol)
    requires b.Eq? || b.Car? || b.Cdr?
    ensures SymbolFrom(SymbolName(b)) == b
  {
  }

  lemma BuiltinRoundTrip3(b: Symbol)
    requires b.Cons? || b.T? || b.List? || b.Add?
    ensures SymbolFrom(SymbolName(b)) == b
  {
  }

  lemma BuiltinRoundTrip4(b: Symbol)
    requires b.Sub? || b.Mul? || b.Div? || b.Remainder? || b.Quotient?
    ensures SymbolFrom(SymbolName(b)) == b
  {
  }

  lemma BuiltinRoundTrip5(b: Symbol)
    requires b.Floor? || b.Ceiling? || b.Sin? || b.Cos? || b.Abs?
    ensures SymbolFrom(SymbolName(b)) == b
  {
  }

  lemma BuiltinRoundTrip6(b: Symbol)
    requires b.Gt? || b.Lt? || b.Ge? || b.Le? || b.EqNum?
    ensures SymbolFrom(SymbolName(b)) == b
  {
  }

  /** No keyword of a special form is also a built-in symbol name. */
  lemma TablesDisjoint(s: string)
    ensures !(s in SPECIAL_FORMS && s in SYMBOLS)
  {
    if s in SPECIAL_FORMS {
      FormNameParse(s);
      FormNotSymbol(SPECIAL_FORMS[s]);
    }
  }

  lemma FormNotSymbol(f: SpecialForm)
    ensures FormName(f) !in SYMBOLS
  {
    if f.Quote? || f.Cond? || f.If? || f.Begin? || f.Lambda? {
      FormNotSymbol1(f);
    } else if f.Let? || f.Define? || f.DefineSyntaxRule? || f.Set? || f.SetCar? {
      FormNotSymbol2(f);
    } else if f.SetCdr? || f.And? || f.Or? || f.Display? || f.NewLine? {
      FormNotSymbol3(f);
    } else {
      FormNotSymbol4(f);
    }
  }

  lemma FormNotSymbol1(f: SpecialForm)
    requires f.Quote? || f.Cond? || f.If? || f.Begin? || f.Lambda?
    ensures FormName(f) !in SYMBOLS
  {
  }

  lemma FormNotSymbol2(f: SpecialForm)
    requires f.Let? || f.Define? || f.DefineSyntaxRule? || f.Set? || f.SetCar?
    ensures FormName(f) !in SYMBOLS
  {
  }

  lemma FormNotSymbol3(f: SpecialForm)
    requires f.SetCdr? || f.And? || f.Or? || f.Display? || f.NewLine?
    ensures FormName(f) !in SYMBOLS
  {
  }

  lemma FormNotSymbol4(f: SpecialForm)
    requires f.BreakPoint? || f.Import? || f.Read? || f.Apply?
    ensures FormName(f) !in SYMBOLS
  {
  }
}
