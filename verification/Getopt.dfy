/** The option parser, with its state kept across calls. */
module Getopt {

  import opened Bytes

  const COLON: char := ':'
  const DASH: char := '-'

  /** sp is the static position inside the word; the others are the globals of the same names. */
  datatype State = State(sp: nat, optind: nat, optopt: char, optarg: Option<string>)

  /** strchr(): the first place of c, or the length. */
  function Strchr(s: string, c: char): (i: nat)
    ensures i <= |s| && (i < |s| <==> c in s)
    ensures i < |s| ==> s[i] == c
    ensures forall k :: 0 <= k < i ==> s[k] != c
  {
    if s == [] || s[0] == c then 0 else 1 + Strchr(s[1..], c)
  }

  predicate Known(opts: string, c: char) { c != COLON && c in opts }

  /** The option's letter is followed by a colon where it first occurs. */
  predicate TakesArg(opts: string, c: char) {
    Known(opts, c) && Strchr(opts, c) + 1 < |opts| && opts[Strchr(opts, c) + 1] == COLON
  }

  /** The word ends the options: not one of them, or the separator. */
  predicate Ends(word: string) { word == [] || word[0] != DASH || |word| == 1 || word == "--" }

  /** Between calls: at the start of a word, or at a real character of a word that is there. */
  predicate Inv(argv: seq<string>, s: State) {
    s.optind <= |argv| && (s.sp == 1 || (s.optind < |argv| && 1 < s.sp < |argv[s.optind]|))
  }

  /** Behind the character at sp: the next one, or the next word. */
  function Advance(argv: seq<string>, s: State): State
    requires s.optind < |argv|
  {
    if s.sp + 1 == |argv[s.optind]| then s.(sp := 1, optind := s.optind + 1) else s.(sp := s.sp + 1)
  }

  /** One call: the new state, and what it returns; None is EOF. */
  function Step(argv: seq<string>, opts: string, s: State): (State, Option<char>)
    requires Inv(argv, s)
  {
    if s.sp == 1 && (s.optind >= |argv| || Ends(argv[s.optind])) then
      (if s.optind < |argv| && argv[s.optind] == "--" then s.(optind := s.optind + 1) else s, None)
    else
      var word := argv[s.optind];
      var c := word[s.sp];
      var s1 := s.(optopt := c);
      if !Known(opts, c) then (Advance(argv, s1), Some('?'))
      else if !TakesArg(opts, c) then (Advance(argv, s1).(optarg := None), Some(c))
      else if s.sp + 1 < |word| then (s1.(sp := 1, optind := s.optind + 1, optarg := Some(word[s.sp + 1..])), Some(c))
      else if s.optind + 1 >= |argv| then (s1.(sp := 1, optind := s.optind + 1), Some('?'))
      else (s1.(sp := 1, optind := s.optind + 2, optarg := Some(argv[s.optind + 1])), Some(c))
  }

  /** The parser as it is: the state is updated in place, step by step. */
  class Parser {
    var sp: nat
    var optind: nat
    var optopt: char
    var optarg: Option<string>

    constructor ()
      ensures sp == 1 && optind == 1 && optarg == None
    {
      sp, optind, optopt, optarg := 1, 1, '\0', None;
    }

    function Value(): State
      reads this
    {
      State(sp, optind, optopt, optarg)
    }

    /** A character of the word, NUL at its end. */
    static function At(word: string, i: nat): char { if i < |word| then word[i] else '\0' }

    method Next(argv: seq<string>, opts: string) returns (r: Option<char>)
      requires Inv(argv, Value()) && forall w :: w in argv ==> '\0' !in w
      modifies this
      ensures (Value(), r) == Step(argv, opts, old(Value()))
      ensures Inv(argv, Value())
      ensures r != None ==> optind > old(optind) || (optind == old(optind) && sp > old(sp))
    {
      if sp == 1 {
        assert optind < |argv| ==> argv[optind] in argv;
        if optind >= |argv| || At(argv[optind], 0) != DASH || At(argv[optind], 1) == '\0' {
          return None;
        } else if argv[optind] == "--" {
          optind := optind + 1;
          return None;
        }
      }
      var c := At(argv[optind], sp);
      assert argv[optind] in argv && c == argv[optind][sp];
      optopt := c;
      var cp := Strchr(opts, c);
      if c == COLON || cp == |opts| {
        sp := sp + 1;
        if At(argv[optind], sp) == '\0' {
          optind := optind + 1;
          sp := 1;
        }
        return Some('?');
      }
      cp := cp + 1;
      if At(opts, cp) == COLON {
        if At(argv[optind], sp + 1) != '\0' {
          optarg := Some(argv[optind][sp + 1..]);
          optind := optind + 1;
        } else {
          optind := optind + 1;
          if optind >= |argv| {
            sp := 1;
            return Some('?');
          }
          optarg := Some(argv[optind]);
          optind := optind + 1;
        }
        sp := 1;
      } else {
        sp := sp + 1;
        if At(argv[optind], sp) == '\0' {
          sp := 1;
          optind := optind + 1;
        }
        optarg := None;
      }
      return Some(c);
    }
  }

  // ---------------------------------------------------------------- repeated calls

  /** What is left of the word at hand. */
  function Rest(argv: seq<string>, s: State): nat
    requires Inv(argv, s)
  {
    if s.optind < |argv| && s.sp < |argv[s.optind]| then |argv[s.optind]| - s.sp else 0
  }

  lemma StepKeepsInv(argv: seq<string>, opts: string, s: State)
    requires Inv(argv, s)
    ensures var (s', r) := Step(argv, opts, s);
            && Inv(argv, s')
            && (r != None ==> s'.optind > s.optind || (s'.optind == s.optind && Rest(argv, s') < Rest(argv, s)))
  {
  }

  /** Calls until EOF: the options with their arguments, and the last state. Every run of calls ends. */
  function Calls(argv: seq<string>, opts: string, s: State): (seq<(char, Option<string>)>, State)
    requires Inv(argv, s)
    decreases |argv| - s.optind, Rest(argv, s)
  {
    StepKeepsInv(argv, opts, s);
    var (s', r) := Step(argv, opts, s);
    if r == None then ([], s')
    else
      var (rest, last) := Calls(argv, opts, s');
      ([(r.value, s'.optarg)] + rest, last)
  }

  // ---------------------------------------------------------------- options rendered as words

  /** The end of a word: nothing more, an option with its argument joined, or in the next word. */
  datatype Tail = NoArg | Joined(c: char, arg: string) | Apart(c: char, arg: string)

  /** A word: clustered options without arguments, then the tail. */
  datatype Word = Word(flags: string, tail: Tail)

  function Text(w: Word): string {
    "-" + w.flags + match w.tail { case NoArg => "" case Joined(c, arg) => [c] + arg case Apart(c, _) => [c] }
  }

  function Words(w: Word): seq<string> {
    [Text(w)] + if w.tail.Apart? then [w.tail.arg] else []
  }

  function FlagOptions(flags: string): seq<(char, Option<string>)> {
    seq(|flags|, i requires 0 <= i < |flags| => (flags[i], None))
  }

  function TailOptions(t: Tail): seq<(char, Option<string>)> {
    if t.NoArg? then [] else [(t.c, Some(t.arg))]
  }

  predicate WordOk(opts: string, w: Word) {
    && (forall i :: 0 <= i < |w.flags| ==> Known(opts, w.flags[i]) && !TakesArg(opts, w.flags[i]))
    && (w.tail.NoArg? ==> w.flags != [])
    && (w.tail.Joined? ==> TakesArg(opts, w.tail.c) && w.tail.arg != [])
    && (w.tail.Apart? ==> TakesArg(opts, w.tail.c))
    && Text(w) != "--"
  }

  function Render(ws: seq<Word>): seq<string> {
    if ws == [] then [] else Words(ws[0]) + Render(ws[1..])
  }

  function Options(ws: seq<Word>): seq<(char, Option<string>)> {
    if ws == [] then [] else FlagOptions(ws[0].flags) + TailOptions(ws[0].tail) + Options(ws[1..])
  }

  /** The state behind a word, apart from what the last call left in optopt and optarg. */
  predicate Behind(w: Word, s: State, s': State) {
    s'.sp == 1 && s'.optind == s.optind + |Words(w)|
  }

  predicate AtWord(argv: seq<string>, s: State, w: Word) {
    && s.optind < |argv| && argv[s.optind] == Text(w)
    && (w.tail.Apart? ==> s.optind + 1 < |argv| && argv[s.optind + 1] == w.tail.arg)
  }

  lemma CallsOnce(argv: seq<string>, opts: string, s: State)
    requires Inv(argv, s) && Step(argv, opts, s).1.Some?
    ensures var (s', r) := Step(argv, opts, s);
            && Inv(argv, s')
            && Calls(argv, opts, s) == ([(r.value, s'.optarg)] + Calls(argv, opts, s').0, Calls(argv, opts, s').1)
  {
    StepKeepsInv(argv, opts, s);
    hide Step;
  }

  /** Where the i-th option of a word stands, and what is behind it. */
  lemma TextAt(w: Word, i: nat)
    requires i < |w.flags| || (i == |w.flags| && !w.tail.NoArg?)
    ensures |Text(w)| == 1 + |w.flags|
                         + (match w.tail case NoArg => 0 case Joined(_, arg) => 1 + |arg| case Apart(_, _) => 1)
    ensures Text(w)[0] == DASH && Text(w)[1 + i] == if i < |w.flags| then w.flags[i] else w.tail.c
    ensures i == |w.flags| && w.tail.Joined? ==> Text(w)[2 + i..] == w.tail.arg
  {
  }

  /** A call at a clustered option: the option without argument, and the next place. */
  lemma FlagStep(argv: seq<string>, opts: string, s: State, w: Word, i: nat)
    requires Inv(argv, s) && WordOk(opts, w) && AtWord(argv, s, w) && s.sp == 1 + i && i < |w.flags|
    ensures var (s', r) := Step(argv, opts, s);
            && r == Some(w.flags[i]) && s'.optarg == None
            && (if i + 1 == |w.flags| && w.tail.NoArg? then Behind(w, s, s')
                else s'.optind == s.optind && s'.sp == s.sp + 1)
  {
    hide TakesArg;
    TextAt(w, i);
    assert !Ends(Text(w));
    hide Text;
  }

  /** A call at the option that takes an argument. */
  lemma TailStep(argv: seq<string>, opts: string, s: State, w: Word)
    requires Inv(argv, s) && WordOk(opts, w) && AtWord(argv, s, w) && s.sp == 1 + |w.flags| && !w.tail.NoArg?
    ensures var (s', r) := Step(argv, opts, s);
            r == Some(w.tail.c) && s'.optarg == Some(w.tail.arg) && Behind(w, s, s')
  {
    TextAt(w, |w.flags|);
    assert !Ends(Text(w)) && Known(opts, w.tail.c);
    hide Text, TakesArg;
  }

  /** The rest of a word from its i-th clustered option on. */
  lemma {:induction false} WordCalls(argv: seq<string>, opts: string, s: State, w: Word, i: nat) returns (s': State)
    requires Inv(argv, s) && WordOk(opts, w) && AtWord(argv, s, w) && s.sp == 1 + i
    requires i < |w.flags| || (i == |w.flags| && !w.tail.NoArg?)
    ensures Behind(w, s, s') && Inv(argv, s')
    ensures Calls(argv, opts, s).0 == FlagOptions(w.flags)[i..] + TailOptions(w.tail) + Calls(argv, opts, s').0
    ensures Calls(argv, opts, s).1 == Calls(argv, opts, s').1
    decreases |w.flags| - i
  {
    hide Step, Calls, Text, WordOk;
    if i == |w.flags| {
      TailStep(argv, opts, s, w);
    } else {
      FlagStep(argv, opts, s, w, i);
      assert FlagOptions(w.flags)[i..] == [(w.flags[i], None)] + FlagOptions(w.flags)[i + 1..];
    }
    CallsOnce(argv, opts, s);
    s' := Step(argv, opts, s).0;
    if i + 1 < |w.flags| || (i + 1 == |w.flags| && !w.tail.NoArg?) {
      s' := WordCalls(argv, opts, s', w, i + 1);
    }
  }

  lemma WordsAhead(argv: seq<string>, s: State, w: Word, more: seq<string>)
    requires s.optind <= |argv| && argv[s.optind..] == Words(w) + more
    ensures AtWord(argv, s, w)
  {
    hide Text;
    var rest := argv[s.optind..];
    assert argv[s.optind] == rest[0];
    if w.tail.Apart? { assert argv[s.optind + 1] == rest[1]; }
  }

  lemma StepAtEnd(argv: seq<string>, opts: string, s: State)
    requires Inv(argv, s) && s.sp == 1 && (s.optind < |argv| ==> Ends(argv[s.optind]))
    ensures Step(argv, opts, s).1 == None
    ensures Step(argv, opts, s).0.optind == s.optind + if s.optind < |argv| && argv[s.optind] == "--" then 1 else 0
  {
  }

  /** The calls on the first word, and what is then ahead. */
  lemma FirstWord(argv: seq<string>, opts: string, s: State, w: Word, more: seq<string>) returns (s': State)
    requires Inv(argv, s) && s.sp == 1 && WordOk(opts, w) && (w.flags != [] || !w.tail.NoArg?)
    requires argv[s.optind..] == Words(w) + more
    ensures Inv(argv, s') && s'.sp == 1 && s'.optind <= |argv| && argv[s'.optind..] == more
    ensures Calls(argv, opts, s).0 == FlagOptions(w.flags) + TailOptions(w.tail) + Calls(argv, opts, s').0
    ensures Calls(argv, opts, s).1 == Calls(argv, opts, s').1
  {
    hide Step, Text, Words, WordOk, Calls;
    var rest := argv[s.optind..];
    WordsAhead(argv, s, w, more);
    s' := WordCalls(argv, opts, s, w, 0);
    assert FlagOptions(w.flags)[0..] == FlagOptions(w.flags);
    assert argv[s'.optind..] == rest[|Words(w)|..] == more;
  }

  /**
   * For every list of options, rendered in any clustered or separate form, with arguments joined or in
   * the next word, and followed by operands: the calls return exactly that list and then EOF, with
   * optind at the first operand.
   */
  lemma {:induction false} RenderedOptionsAreParsed(argv: seq<string>, opts: string, s: State, ws: seq<Word>,
                                                    operands: seq<string>)
    requires Inv(argv, s) && s.sp == 1 && argv[s.optind..] == Render(ws) + operands
    requires forall i :: 0 <= i < |ws| ==> WordOk(opts, ws[i])
    requires operands == [] || Ends(operands[0])
    ensures Calls(argv, opts, s).0 == Options(ws)
    ensures Calls(argv, opts, s).1.optind
            == |argv| - |operands| + if operands != [] && operands[0] == "--" then 1 else 0
    decreases |ws|
  {
    if ws == [] {
      var rest := argv[s.optind..];
      StepAtEnd(argv, opts, s);
      hide Step;
      if operands != [] { assert argv[s.optind] == rest[0]; }
    } else {
      var w, more := ws[0], Render(ws[1..]) + operands;
      assert WordOk(opts, w) && (w.flags != [] || !w.tail.NoArg?);
      hide Step, Words, WordOk, Calls, FlagOptions, TailOptions, Text;
      assert Render(ws) + operands == Words(w) + more;
      var s' := FirstWord(argv, opts, s, w, more);
      RenderedOptionsAreParsed(argv, opts, s', ws[1..], operands);
    }
  }
}
