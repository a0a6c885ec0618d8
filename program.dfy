/*
 * The command-line parser of the program (program.h, program.cpp): a small
 * argparse-like `arguments` object. Options are registered with a help text,
 * a default and a const; `parse` walks argv once, and `get` reads a value back.
 *
 * std::string is `string` (a sequence of `char`), std::map is a Dafny `map`
 * whose ascending key order is made explicit where it is observable (in
 * `help`), and the option regex is an arbitrary predicate on strings.
 */
module Program {

  import Lex

  /** A value, or the `std::invalid_argument` the source throws, carrying its message. */
  datatype Result<T> = Ok(value: T) | Invalid(message: string)

  datatype Maybe<T> = None | Some(value: T)

  /** One registered option: the tuple (help, default, const) of `formal`. */
  datatype Formal = Formal(help: string, dflt: string, cnst: string)

  // ---------------------------------------------------------------------
  // The order of std::map<std::string, ...>
  // ---------------------------------------------------------------------

  /** The character codes of a string, as `std::char_traits<char>::lt` compares them. */
  function Codes(s: string): (r: seq<int>)
    ensures |r| == |s|
  {
    seq(|s|, i requires 0 <= i < |s| => s[i] as int)
  }

  /** Distinct strings have distinct codes. */
  lemma CodesInjective(a: string, b: string)
    requires Codes(a) == Codes(b)
    ensures a == b
  {
    forall i | 0 <= i < |a|
      ensures a[i] == b[i]
    {
      assert Codes(a)[i] == Codes(b)[i];
    }
  }

  /** `std::string::operator<`: lexicographic on the characters. */
  predicate StrLess(a: string, b: string)
  {
    Lex.LexLess(Codes(a), Codes(b))
  }

  lemma StrIrreflexive(a: string)
    ensures !StrLess(a, a)
  {
    Lex.LexIrreflexive(Codes(a));
  }

  lemma StrTransitive(a: string, b: string, c: string)
    requires StrLess(a, b) && StrLess(b, c)
    ensures StrLess(a, c)
  {
    Lex.LexTransitive(Codes(a), Codes(b), Codes(c));
  }

  /** `operator<` orders any two distinct strings. */
  lemma StrTotal(a: string, b: string)
    requires a != b
    ensures StrLess(a, b) || StrLess(b, a)
  {
    if Codes(a) == Codes(b) {
      CodesInjective(a, b);
    }
    Lex.LexTotal(Codes(a), Codes(b));
  }

  /** n is the first key of `keys` in std::map order. */
  predicate IsFirst(n: string, keys: set<string>)
  {
    n in keys && forall x :: x in keys ==> !StrLess(x, n)
  }

  lemma {:induction false} FirstExists(keys: set<string>)
    requires keys != {}
    ensures exists n :: IsFirst(n, keys)
    decreases |keys|
  {
    var x :| x in keys;
    if keys == {x} {
      StrIrreflexive(x);
      assert IsFirst(x, keys);
    } else {
      var others := keys - {x};
      FirstExists(others);
      var m :| IsFirst(m, others);
      if StrLess(x, m) {
        forall y | y in keys ensures !StrLess(y, x) {
          if y == x {
            StrIrreflexive(x);
          } else if StrLess(y, x) {
            StrTransitive(y, x, m);
          }
        }
        assert IsFirst(x, keys);
      } else {
        assert IsFirst(m, keys);
      }
    }
  }

  lemma FirstUnique(n: string, m: string, keys: set<string>)
    requires IsFirst(n, keys) && IsFirst(m, keys)
    ensures n == m
  {
    if n != m {
      StrTotal(n, m);
    }
  }

  /** The keys in the order std::map visits them: first key first. */
  ghost function InOrder(keys: set<string>): (r: seq<string>)
    ensures forall x :: x in r <==> x in keys
    decreases |keys|
  {
    if keys == {} then []
    else
      FirstExists(keys);
      var n :| IsFirst(n, keys);
      [n] + InOrder(keys - {n})
  }

  /** Visiting the first key, then the rest in order, is visiting them all in order. */
  lemma InOrderFirst(keys: set<string>, n: string)
    requires IsFirst(n, keys)
    ensures InOrder(keys) == [n] + InOrder(keys - {n})
  {
    var c := InOrder(keys)[0];
    assert IsFirst(c, keys) && InOrder(keys) == [c] + InOrder(keys - {c});
    FirstUnique(n, c, keys);
  }

  /** Strictly ascending names. */
  ghost predicate Ascending(r: seq<string>)
  {
    forall i, j {:trigger StrLess(r[i], r[j])} :: 0 <= i < j < |r| ==> StrLess(r[i], r[j])
  }

  lemma AscendingCons(n: string, rest: seq<string>)
    requires Ascending(rest) && forall y :: y in rest ==> StrLess(n, y)
    ensures Ascending([n] + rest)
  {
    var r := [n] + rest;
    forall i, j | 0 <= i < j < |r| ensures StrLess(r[i], r[j]) {
      assert r[j] == rest[j - 1];
      if i > 0 {
        assert r[i] == rest[i - 1];
      }
    }
  }

  /** std::map visits its keys in strictly ascending order. */
  lemma {:induction false} InOrderAscending(keys: set<string>)
    ensures Ascending(InOrder(keys))
    decreases |keys|
  {
    if keys != {} {
      FirstExists(keys);
      var n :| IsFirst(n, keys);
      InOrderFirst(keys, n);
      var rest := InOrder(keys - {n});
      InOrderAscending(keys - {n});
      forall y | y in rest ensures StrLess(n, y) {
        assert y in keys - {n};
        StrTotal(n, y);
      }
      AscendingCons(n, rest);
    }
  }

  // ---------------------------------------------------------------------
  // help()
  // ---------------------------------------------------------------------

  /** The two lines before the option list (program.cpp:23-24). */
  function Banner(program: string): string
  {
    "Usage: " + program + " [options] ...\n" + "Options:\n"
  }

  /** One option's line (program.cpp:26-30). */
  function Line(name: string, f: Formal): string
  {
    "\t" + name + "\t" + f.help + (if f.dflt == "" then "" else " (" + f.dflt + " by default)") + "\n"
  }

  /** A line shows " (<default> by default)" exactly when the default is not empty. */
  lemma LineShowsDefault(name: string, f: Formal)
    ensures Line(name, f) == "\t" + name + "\t" + f.help + "\n" <==> f.dflt == ""
    ensures f.dflt != "" ==> Line(name, f) == "\t" + name + "\t" + f.help + " (" + f.dflt + " by default)\n"
  {
    var plain := "\t" + name + "\t" + f.help + "\n";
    if f.dflt != "" {
      assert |Line(name, f)| > |plain|;
    }
  }

  function Lines(formal: map<string, Formal>, names: seq<string>): string
    requires forall n :: n in names ==> n in formal
  {
    if names == [] then "" else Line(names[0], formal[names[0]]) + Lines(formal, names[1..])
  }

  lemma {:induction false} LinesSnoc(formal: map<string, Formal>, names: seq<string>, n: string)
    requires forall x :: x in names ==> x in formal
    requires n in formal
    ensures Lines(formal, names + [n]) == Lines(formal, names) + Line(n, formal[n])
  {
    var line := Line(n, formal[n]);
    if names != [] {
      var first := Line(names[0], formal[names[0]]);
      assert (names + [n])[1..] == names[1..] + [n];
      assert Lines(formal, names + [n]) == first + Lines(formal, names[1..] + [n]);
      LinesSnoc(formal, names[1..], n);
      Lex.Regroup(first, Lines(formal, names[1..]), line);
    } else {
      assert Lines(formal, [n]) == line + "";
    }
  }

  /** What `help()` returns: the banner, then every option's line in ascending name order. */
  ghost function HelpText(program: string, formal: map<string, Formal>): string
  {
    Banner(program) + Lines(formal, InOrder(formal.Keys))
  }

  /** Every registered option has its line in the help text. */
  lemma {:induction false} LinesListEach(formal: map<string, Formal>, names: seq<string>, i: nat)
    requires forall n :: n in names ==> n in formal
    requires i < |names|
    ensures exists a, b :: Lines(formal, names) == a + Line(names[i], formal[names[i]]) + b
    decreases i
  {
    var first := Line(names[0], formal[names[0]]);
    if i == 0 {
      assert Lines(formal, names) == "" + first + Lines(formal, names[1..]);
    } else {
      LinesListEach(formal, names[1..], i - 1);
      var line := Line(names[i], formal[names[i]]);
      var a, b :| Lines(formal, names[1..]) == (a + line) + b;
      assert Lines(formal, names) == first + ((a + line) + b);
      Lex.Regroup(first, a + line, b);
      Lex.Regroup(first, a, line);
    }
  }

  lemma HelpListsEach(program: string, formal: map<string, Formal>, name: string)
    requires name in formal
    ensures exists a, b :: HelpText(program, formal) == a + Line(name, formal[name]) + b
  {
    var names := InOrder(formal.Keys);
    assert name in names;
    var i :| 0 <= i < |names| && names[i] == name;
    LinesListEach(formal, names, i);
    var a, b :| Lines(formal, names) == a + Line(name, formal[name]) + b;
    var banner, line := Banner(program), Line(name, formal[name]);
    assert HelpText(program, formal) == banner + ((a + line) + b);
    Lex.Regroup(banner, a + line, b);
    Lex.Regroup(banner, a, line);
  }

  // ---------------------------------------------------------------------
  // parse()
  // ---------------------------------------------------------------------

  /**
   * What `parse` computes from the arguments after the program name
   * (program.cpp:42-67), onto the options already collected: None where it
   * throws, otherwise the options and the positional arguments.
   */
  function ParseFrom(formal: map<string, Formal>, re: string -> bool, args: seq<string>, opt: map<string, string>)
    : Maybe<(map<string, string>, seq<string>)>
    decreases |args|
  {
    if args == [] then Some((opt, []))
    else if !re(args[0]) then Some((opt, args))
    else if args[0] !in formal then None
    else if formal[args[0]].cnst != "" then ParseFrom(formal, re, args[1..], opt[args[0] := formal[args[0]].cnst])
    else if |args| == 1 then None
    else ParseFrom(formal, re, args[2..], opt[args[0] := args[1]])
  }

  /**
   * Where `parse` throws: at an option-like word that is not registered, or
   * at an option that takes a value but is the last word.
   */
  predicate Rejects(formal: map<string, Formal>, re: string -> bool, args: seq<string>, i: nat)
    requires i < |args|
  {
    re(args[i]) && (args[i] !in formal || (formal[args[i]].cnst == "" && i + 1 == |args|))
  }

  /** `parse(argc, argv)` on the whole argument vector, program name included. */
  function ParseArgs(formal: map<string, Formal>, re: string -> bool, argv: seq<string>)
    : Maybe<(map<string, string>, seq<string>)>
  {
    if argv == [] then Some((map[], [])) else ParseFrom(formal, re, argv[1..], map[])
  }

  /**
   * `parse` fails only at a word `Rejects`. When it succeeds, each value it
   * collected is an old one or belongs to a registered option-like name (a
   * flag's value being its const), and the positional arguments are a tail
   * of the words that does not start with an option-like word.
   */
  lemma {:induction false} ParseFromShape(formal: map<string, Formal>, re: string -> bool, args: seq<string>,
                                          opt: map<string, string>)
    ensures var r := ParseFrom(formal, re, args, opt);
      && (r.None? ==> exists i :: 0 <= i < |args| && Rejects(formal, re, args, i))
      && (r.Some? ==> |r.value.1| <= |args| && r.value.1 == args[|args| - |r.value.1|..])
      && (r.Some? ==> r.value.1 == [] || !re(r.value.1[0]))
      && (r.Some? ==> forall k :: k in r.value.0 ==>
            || (k in opt && r.value.0[k] == opt[k])
            || (k in formal && re(k) && (formal[k].cnst == "" || r.value.0[k] == formal[k].cnst)))
    decreases |args|
  {
    if args != [] && re(args[0]) && args[0] in formal {
      var n := args[0];
      var c := formal[n].cnst;
      if c != "" || |args| > 1 {
        var used: nat := if c != "" then 1 else 2;
        var v := if c != "" then c else args[1];
        var rest := args[used..];
        ParseFromShape(formal, re, rest, opt[n := v]);
        assert ParseFrom(formal, re, args, opt) == ParseFrom(formal, re, rest, opt[n := v]);
        var r := ParseFrom(formal, re, rest, opt[n := v]);
        if r.None? {
          var i :| 0 <= i < |rest| && Rejects(formal, re, rest, i);
          assert args[used + i] == rest[i];
          assert Rejects(formal, re, args, used + i);
        } else {
          var pos := r.value.1;
          assert rest[|rest| - |pos|..] == args[|args| - |pos|..];
        }
      } else {
        assert Rejects(formal, re, args, 0);
      }
    } else if args != [] && re(args[0]) {
      assert Rejects(formal, re, args, 0);
    }
  }

  /**
   * On the whole argument vector: a failure points at a word after the
   * program name that `Rejects`; a success holds only values of registered
   * option-like names, and positional arguments that are a tail of argv
   * after the program name and do not start with an option-like word.
   */
  lemma ParseArgsShape(formal: map<string, Formal>, re: string -> bool, argv: seq<string>)
    ensures var r := ParseArgs(formal, re, argv);
      && (r.None? ==> exists i :: 1 <= i < |argv| && Rejects(formal, re, argv, i))
      && (r.Some? ==> forall k :: k in r.value.0 ==>
            k in formal && re(k) && (formal[k].cnst == "" || r.value.0[k] == formal[k].cnst))
      && (r.Some? ==> r.value.1 == [] || !re(r.value.1[0]))
      && (r.Some? ==> |r.value.1| < |argv| || r.value.1 == [])
      && (r.Some? ==> r.value.1 == argv[|argv| - |r.value.1|..])
  {
    if argv != [] {
      var args := argv[1..];
      ParseFromShape(formal, re, args, map[]);
      var r := ParseFrom(formal, re, args, map[]);
      if r.None? {
        var i :| 0 <= i < |args| && Rejects(formal, re, args, i);
        assert argv[i + 1] == args[i];
        assert Rejects(formal, re, argv, i + 1);
      } else {
        var pos := r.value.1;
        assert args[|args| - |pos|..] == argv[|argv| - |pos|..];
      }
    }
  }

  /** One option as a user writes it: its name and the value it is to take. */
  datatype Given = Given(name: string, value: string)

  /**
   * A given option `parse` accepts: its name looks like an option and is
   * registered, and a flag (non-empty const) can only take its const.
   */
  ghost predicate Legal(formal: map<string, Formal>, re: string -> bool, g: Given)
  {
    re(g.name) && g.name in formal && (formal[g.name].cnst == "" || g.value == formal[g.name].cnst)
  }

  /** The words a user types for some given options: a registered flag alone, any other option followed by its value. */
  function Render(formal: map<string, Formal>, gs: seq<Given>): seq<string>
  {
    if gs == [] then []
    else
      var g := gs[0];
      (if g.name in formal && formal[g.name].cnst != "" then [g.name] else [g.name, g.value]) + Render(formal, gs[1..])
  }

  /** The options after the given ones are set, later ones overriding earlier ones. */
  function Apply(opt: map<string, string>, gs: seq<Given>): map<string, string>
    decreases |gs|
  {
    if gs == [] then opt else Apply(opt[gs[0].name := gs[0].value], gs[1..])
  }

  /** Parsing rendered options sets exactly them and goes on with whatever follows. */
  lemma {:induction false} ParseRenderedPrefix(formal: map<string, Formal>, re: string -> bool, gs: seq<Given>,
                                               tail: seq<string>, opt: map<string, string>)
    requires forall g :: g in gs ==> Legal(formal, re, g)
    ensures ParseFrom(formal, re, Render(formal, gs) + tail, opt) == ParseFrom(formal, re, tail, Apply(opt, gs))
  {
    if gs != [] {
      var g := gs[0];
      assert Legal(formal, re, g);
      var rest := Render(formal, gs[1..]) + tail;
      ParseRenderedPrefix(formal, re, gs[1..], tail, opt[g.name := g.value]);
      assert Apply(opt, gs) == Apply(opt[g.name := g.value], gs[1..]);
      if formal[g.name].cnst == "" {
        var head: seq<string> := [g.name, g.value];
        assert Render(formal, gs) + tail == head + rest;
        var words := head + rest;
        assert words[0] == g.name && words[1] == g.value && |words| > 1;
        assert words[2..] == rest;
        assert ParseFrom(formal, re, words, opt) == ParseFrom(formal, re, rest, opt[g.name := g.value]);
      } else {
        var head: seq<string> := [g.name];
        assert Render(formal, gs) + tail == head + rest;
        var words := head + rest;
        assert words[0] == g.name;
        assert words[1..] == rest;
        assert ParseFrom(formal, re, words, opt) == ParseFrom(formal, re, rest, opt[g.name := g.value]);
      }
    } else {
      assert Render(formal, gs) + tail == tail;
    }
  }

  /**
   * Options then positional arguments: parse returns the options the user
   * gave and, from the first argument that is not option-shaped on, every
   * argument as positional.
   */
  lemma ParseRendered(formal: map<string, Formal>, re: string -> bool, gs: seq<Given>, pos: seq<string>,
                      opt: map<string, string>)
    requires forall g :: g in gs ==> Legal(formal, re, g)
    requires pos == [] || !re(pos[0])
    ensures ParseFrom(formal, re, Render(formal, gs) + pos, opt) == Some((Apply(opt, gs), pos))
  {
    ParseRenderedPrefix(formal, re, gs, pos, opt);
  }

  /** An option-shaped argument that is not registered makes parse throw (program.cpp:47-49). */
  lemma UnregisteredRejected(formal: map<string, Formal>, re: string -> bool, gs: seq<Given>, x: string,
                             rest: seq<string>, opt: map<string, string>)
    requires forall g :: g in gs ==> Legal(formal, re, g)
    requires re(x) && x !in formal
    ensures ParseFrom(formal, re, Render(formal, gs) + ([x] + rest), opt) == None
  {
    ParseRenderedPrefix(formal, re, gs, [x] + rest, opt);
  }

  /** An option that takes a value, given last, makes parse throw (program.cpp:51-54). */
  lemma MissingValueRejected(formal: map<string, Formal>, re: string -> bool, gs: seq<Given>, x: string,
                             opt: map<string, string>)
    requires forall g :: g in gs ==> Legal(formal, re, g)
    requires re(x) && x in formal && formal[x].cnst == ""
    ensures ParseFrom(formal, re, Render(formal, gs) + [x], opt) == None
  {
    ParseRenderedPrefix(formal, re, gs, [x], opt);
  }

  /** Conversely, every successful parse read some legal options and then the positional arguments. */
  lemma {:induction false} ParsedIsRendered(formal: map<string, Formal>, re: string -> bool, args: seq<string>,
                                            opt: map<string, string>, got: map<string, string>, pos: seq<string>)
    returns (gs: seq<Given>)
    requires ParseFrom(formal, re, args, opt) == Some((got, pos))
    ensures forall g :: g in gs ==> Legal(formal, re, g)
    ensures args == Render(formal, gs) + pos
    ensures got == Apply(opt, gs)
    ensures pos == [] || !re(pos[0])
    decreases |args|
  {
    if args == [] || !re(args[0]) {
      gs := [];
    } else {
      var n := args[0];
      var c := formal[n].cnst;
      var used: nat := if c != "" then 1 else 2;
      var g := Given(n, if c != "" then c else args[1]);
      var more := ParsedIsRendered(formal, re, args[used..], opt[n := g.value], got, pos);
      gs := [g] + more;
      assert gs[1..] == more;
      assert Render(formal, gs) == args[..used] + Render(formal, more);
      assert args == args[..used] + args[used..];
    }
  }

  // ---------------------------------------------------------------------
  // The numeric add overloads: std::to_string of an integer
  // ---------------------------------------------------------------------

  function DigitChar(d: nat): char
    requires d < 10
  {
    ('0' as int + d) as char
  }

  /** Decimal digits of n, most significant first, no leading zero. */
  function Digits(n: nat): (r: string)
    ensures 1 <= |r|
    ensures AllDigits(r)
    ensures r[0] == '0' <==> n == 0
    decreases n
  {
    if n < 10 then [DigitChar(n)] else Digits(n / 10) + [DigitChar(n % 10)]
  }

  /**
   * `std::to_string` of an integer: its decimal digits, with a '-' in front
   * when negative, and no leading zero except in "0" itself.
   */
  function DecimalString(n: int): (r: string)
    ensures r != ""
    ensures r[0] == '-' <==> n < 0
    ensures n < 0 ==> |r| > 1 && AllDigits(r[1..]) && r[1] != '0'
    ensures 0 <= n ==> AllDigits(r) && (r[0] == '0' <==> r == "0")
  {
    if n < 0 then "-" + Digits(-n) else Digits(n)
  }

  predicate AllDigits(s: string)
  {
    forall i :: 0 <= i < |s| ==> '0' <= s[i] <= '9'
  }

  /** The value of a string of decimal digits. */
  function DigitsValue(s: string): nat
    requires AllDigits(s)
  {
    if s == [] then 0 else 10 * DigitsValue(s[..|s| - 1]) + (s[|s| - 1] - '0') as nat
  }

  /** Reading a decimal string back (what std::stoi does with a whole string of this shape). */
  function ParseDecimal(s: string): Maybe<int>
  {
    if |s| > 1 && s[0] == '-' && AllDigits(s[1..]) then Some(-(DigitsValue(s[1..]) as int))
    else if s != [] && AllDigits(s) then Some(DigitsValue(s))
    else None
  }

  lemma {:induction false} DigitsRoundTrip(n: nat)
    ensures DigitsValue(Digits(n)) == n
    decreases n
  {
    var r := Digits(n);
    if n < 10 {
      assert r == [DigitChar(n)];
    } else {
      DigitsRoundTrip(n / 10);
      assert r[..|r| - 1] == Digits(n / 10);
    }
  }

  lemma NegativeRoundTrip(m: nat)
    requires m > 0
    ensures ParseDecimal("-" + Digits(m)) == Some(-(m as int))
  {
    var d := Digits(m);
    DigitsRoundTrip(m);
    var s := "-" + d;
    assert s[1..] == d;
  }

  /** The value an integer option is stored with reads back as that integer. */
  lemma DecimalRoundTrip(n: int)
    ensures ParseDecimal(DecimalString(n)) == Some(n)
  {
    if n < 0 {
      NegativeRoundTrip(-n);
    } else {
      var d := Digits(n);
      DigitsRoundTrip(n);
      assert d[0] != '-';
      assert ParseDecimal(d) == Some(DigitsValue(d));
    }
  }

  // ---------------------------------------------------------------------
  // The default option pattern
  // ---------------------------------------------------------------------

  /** `\w` of ECMAScript regular expressions: a letter, a digit or '_'. */
  predicate IsWordChar(c: char)
  {
    ('a' <= c <= 'z') || ('A' <= c <= 'Z') || ('0' <= c <= '9') || c == '_'
  }

  /** `std::regex_match` against `-\w`: the strings it matches are exactly a dash and one word character. */
  predicate DashWord(s: string): (b: bool)
    ensures b <==> exists c :: IsWordChar(c) && s == ['-', c]
  {
    if |s| == 2 && s[0] == '-' && IsWordChar(s[1]) then
      assert s == ['-', s[1]];
      true
    else
      false
  }

  // ---------------------------------------------------------------------
  // class arguments
  // ---------------------------------------------------------------------

  /** One turn of the `help` loop visits the key std::map visits next. */
  lemma HelpOrderStep(formal: map<string, Formal>, done: seq<string>, left: set<string>, n: string)
    requires IsFirst(n, left)
    requires InOrder(formal.Keys) == done + InOrder(left)
    ensures InOrder(formal.Keys) == (done + [n]) + InOrder(left - {n})
  {
    InOrderFirst(left, n);
    assert done + ([n] + InOrder(left - {n})) == (done + [n]) + InOrder(left - {n});
  }

  /** One turn of the `help` loop appends that key's line. */
  lemma HelpTextStep(program: string, formal: map<string, Formal>, done: seq<string>, n: string, text: string)
    requires n in formal && forall x :: x in done ==> x in formal
    requires text == Banner(program) + Lines(formal, done)
    ensures text + Line(n, formal[n]) == Banner(program) + Lines(formal, done + [n])
  {
    LinesSnoc(formal, done, n);
    var banner, lines, line := Banner(program), Lines(formal, done), Line(n, formal[n]);
    assert (banner + lines) + line == banner + (lines + line);
  }

  class Arguments {
    /** The option pattern given at construction. */
    const re: string -> bool
    /** Registered options by name. */
    var formal: map<string, Formal>
    /** argv[0] of the last parse. */
    var program: string
    /** Option values the last successful parse set. */
    var optional: map<string, string>
    /** Positional arguments of the last successful parse. */
    var positional: seq<string>

    /** `arguments(re = std::regex("-\\w"))` (program.h:17). */
    constructor (re: string -> bool := DashWord)
      ensures this.re == re
      ensures formal == map[] && program == "" && optional == map[] && positional == []
      ensures Valid()
    {
      this.re := re;
      formal := map[];
      program := "";
      optional := map[];
      positional := [];
    }

    /**
     * What `parse` leaves behind: values only for registered option-like
     * names, and positional arguments that do not start with an option-like
     * word. Registering options keeps it.
     */
    ghost predicate Valid()
      reads this
    {
      && (forall k :: k in optional ==> k in formal && re(k))
      && (positional == [] || !re(positional[0]))
    }

    /** `get()` (program.h:20): the positional arguments, which never start with an option-like word. */
    function Positionals(): (r: seq<string>)
      reads this
      ensures Valid() ==> r == [] || !re(r[0])
    {
      positional
    }

    /**
     * `add(name, help, dflt = "", cnst = "")` (program.h:26-28): registers the
     * option, replacing an earlier registration under the same name.
     */
    method Add(name: string, help: string, dflt: string := "", cnst: string := "")
      modifies this
      ensures formal == old(formal)[name := Formal(help, dflt, cnst)]
      ensures program == old(program) && optional == old(optional) && positional == old(positional)
      ensures old(Valid()) ==> Valid()
    {
      formal := formal[name := Formal(help, dflt, cnst)];
    }

    /** `add<T>(name, help, dflt, cnst)` for an integer T (program.h:29-31). */
    method AddNumbers(name: string, help: string, dflt: int, cnst: int)
      modifies this
      ensures formal == old(formal)[name := Formal(help, DecimalString(dflt), DecimalString(cnst))]
      ensures formal[name].cnst != ""
      ensures program == old(program) && optional == old(optional) && positional == old(positional)
      ensures old(Valid()) ==> Valid()
    {
      Add(name, help, DecimalString(dflt), DecimalString(cnst));
    }

    /** `add<T>(name, help, dflt)` for an integer T (program.h:32-34): no const. */
    method AddNumber(name: string, help: string, dflt: int)
      modifies this
      ensures formal == old(formal)[name := Formal(help, DecimalString(dflt), "")]
      ensures program == old(program) && optional == old(optional) && positional == old(positional)
      ensures old(Valid()) ==> Valid()
    {
      Add(name, help, DecimalString(dflt));
    }

    /** `help()` (program.cpp:20-33), visiting `formal` in ascending name order. */
    method Help() returns (text: string)
      ensures text == HelpText(program, formal)
    {
      text := Banner(program);
      var left := formal.Keys;
      ghost var done: seq<string> := [];
      while left != {}
        invariant left <= formal.Keys
        invariant forall n :: n in done ==> n in formal
        invariant InOrder(formal.Keys) == done + InOrder(left)
        invariant text == Banner(program) + Lines(formal, done)
        decreases |left|
      {
        FirstExists(left);
        var n :| IsFirst(n, left);
        HelpOrderStep(formal, done, left, n);
        HelpTextStep(program, formal, done, n, text);
        text := text + Line(n, formal[n]);
        done := done + [n];
        left := left - {n};
      }
      assert InOrder(left) == [];
      assert InOrder(formal.Keys) == done;
    }

    /**
     * `get(name)` (program.cpp:9-18): the parsed value, else the registered
     * default, else `invalid_argument` carrying the help text.
     */
    method Get(name: string) returns (r: Result<string>)
      ensures r.Ok? <==> name in optional || name in formal
      ensures name in optional ==> r == Ok(optional[name])
      ensures name !in optional && name in formal ==> r == Ok(formal[name].dflt)
      ensures r.Invalid? ==> r.message == HelpText(program, formal)
      ensures Valid() ==> (r.Ok? <==> name in formal)
    {
      if name in optional {
        return Ok(optional[name]);
      }
      if name in formal {
        return Ok(formal[name].dflt);
      }
      var h := Help();
      return Invalid(h);
    }

    /**
     * `parse(argc, argv)` (program.cpp:35-71). The program name is taken
     * first; the options and positional arguments are collected aside and
     * replace the old ones only when the whole vector parses.
     */
    method Parse(argv: seq<string>) returns (r: Result<()>)
      modifies this
      ensures program == (if argv == [] then "" else argv[0])
      ensures formal == old(formal)
      ensures ParseArgs(formal, re, argv).Some? ==>
        r == Ok(()) && (optional, positional) == ParseArgs(formal, re, argv).value
      ensures ParseArgs(formal, re, argv).None? ==>
        && r == Invalid(HelpText(program, formal))
        && optional == old(optional) && positional == old(positional)
      ensures r.Ok? || old(Valid()) ==> Valid()
    {
      var opt: map<string, string> := map[];
      var pos: seq<string> := [];
      program := if 0 < |argv| then argv[0] else "";
      var i := 1;
      while i < |argv|
        invariant 1 <= i
        invariant argv != [] ==> i <= |argv| && ParseFrom(formal, re, argv[i..], opt) == ParseArgs(formal, re, argv)
        invariant argv == [] ==> opt == map[]
        invariant pos == []
        invariant formal == old(formal) && optional == old(optional) && positional == old(positional)
        invariant program == (if argv == [] then "" else argv[0])
        decreases |argv| - i
      {
        if re(argv[i]) {
          if argv[i] !in formal {
            var h := Help();
            return Invalid(h);
          }
          var name := argv[i];
          var cnst := formal[name].cnst;
          if cnst == "" {
            i := i + 1;
            if i == |argv| {
              var h := Help();
              return Invalid(h);
            }
            assert argv[i - 1..][2..] == argv[i + 1..];
            opt := opt[name := argv[i]];
          } else {
            assert argv[i..][1..] == argv[i + 1..];
            opt := opt[name := cnst];
          }
        } else {
          pos := argv[i..];
          break;
        }
        i := i + 1;
      }
      ParseArgsShape(formal, re, argv);
      optional, positional := opt, pos;
      return Ok(());
    }
  }
}
