/**
 Policy patterns: `globMatch` turns a pattern into a regular expression by two textual
 replacements. The model keeps the texts, gives the resulting expressions their meaning, and
 compares it with what a `*` glob denotes.
 */
module Glob {
  import opened Prelude

  const SPECIAL := ".+^${}()|[]\\"

  predicate OneLine(v: string) {
    forall c <- v :: !LineTerminator(c)
  }

  // ---- The two replacements

  function Escape(p: string): string {
    if p == "" then "" else (if p[0] in SPECIAL then ['\\', p[0]] else [p[0]]) + Escape(p[1..])
  }

  function ReplaceStars(p: string): string {
    if p == "" then "" else (if p[0] == '*' then ".*" else [p[0]]) + ReplaceStars(p[1..])
  }

  // ---- The expressions they produce

  datatype Atom = Char(c: char) | Dot

  datatype Quantifier = Once | Optional | Star

  datatype Item = Item(atom: Atom, quantifier: Quantifier)

  /** Consume a quantifier, with its lazy mark, at the front of `s`. */
  function TakeQuantifier(s: string): (r: (Quantifier, string))
    ensures |r.1| <= |s|
  {
    if s != "" && s[0] == '*' then (Star, if |s| > 1 && s[1] == '?' then s[2..] else s[1..])
    else if s != "" && s[0] == '?' then (Optional, if |s| > 1 && s[1] == '?' then s[2..] else s[1..])
    else (Once, s)
  }

  /** Parse an expression built from escaped characters, dots, plain characters and the quantifiers
      `*` and `?`; `None` where a quantifier has nothing to repeat, and on any other syntax. */
  function Parse(s: string): Option<seq<Item>>
    decreases |s|, 0
  {
    if s == "" then Some([])
    else if s[0] == '\\' then
      if |s| == 1 then None else ParseAfter(Char(s[1]), s[2..])
    else if s[0] == '.' then ParseAfter(Dot, s[1..])
    else if s[0] in SPECIAL || s[0] == '*' || s[0] == '?' then None
    else ParseAfter(Char(s[0]), s[1..])
  }

  function ParseAfter(atom: Atom, s: string): Option<seq<Item>>
    decreases |s|, 1
  {
    var (q, rest) := TakeQuantifier(s);
    match Parse(rest)
    case None => None
    case Some(items) => Some([Item(atom, q)] + items)
  }

  predicate AtomAccepts(a: Atom, c: char) {
    match a
    case Char(d) => c == d
    case Dot => !LineTerminator(c)
  }

  /** Does the anchored expression accept the whole value? */
  predicate Accepts(items: seq<Item>, v: string)
    decreases |items|, |v|
  {
    if items == [] then v == ""
    else
      var Item(a, q) := items[0];
      match q
      case Once => v != "" && AtomAccepts(a, v[0]) && Accepts(items[1..], v[1..])
      case Optional => Accepts(items[1..], v) || (v != "" && AtomAccepts(a, v[0]) && Accepts(items[1..], v[1..]))
      case Star => Accepts(items[1..], v) || (v != "" && AtomAccepts(a, v[0]) && Accepts(items, v[1..]))
  }

  function Translate(p: string): string {
    ReplaceStars(Escape(p))
  }

  /** `globMatch`; `None` when the expression is not well formed. */
  function GlobMatch(p: string, v: string): Option<bool> {
    if p == "*" then Some(true)
    else match Parse(Translate(p))
      case None => None
      case Some(items) => Some(Accepts(items, v))
  }

  // ---- What a pattern means

  /** How many of the question marks after the first character belong to it: they make a character optional and a star
      lazy, and an optional character lazy. */
  function Marks(p: string): (n: nat)
    requires p != ""
    ensures 1 + n <= |p|
  {
    if |p| > 1 && p[1] == '?' then if p[0] != '*' && |p| > 2 && p[2] == '?' then 2 else 1 else 0
  }

  /** The pattern with its stars replaced, left to right, by the given one-line texts, and each marked character kept or
      dropped, as the given text says. */
  function Filled(p: string, fills: seq<string>): Option<string>
    decreases |p|
  {
    if p == "" then if fills == [] then Some("") else None
    else if p[0] == '*' || Marks(p) > 0 then
      if fills == [] || !(if p[0] == '*' then OneLine(fills[0]) else fills[0] in {"", [p[0]]}) then None
      else match Filled(p[1 + Marks(p)..], fills[1..])
        case None => None
        case Some(rest) => Some(fills[0] + rest)
    else match Filled(p[1..], fills)
      case None => None
      case Some(rest) => Some([p[0]] + rest)
  }

  ghost predicate Spells(p: string, v: string) {
    exists fills :: Filled(p, fills) == Some(v)
  }

  // ---- What a glob denotes

  /** The pattern with its stars replaced, left to right, by the given texts; nothing else is special. */
  function Instance(p: string, fills: seq<string>): Option<string> {
    if p == "" then if fills == [] then Some("") else None
    else if p[0] == '*' then
      if fills == [] then None
      else match Instance(p[1..], fills[1..])
        case None => None
        case Some(rest) => Some(fills[0] + rest)
    else match Instance(p[1..], fills)
      case None => None
      case Some(rest) => Some([p[0]] + rest)
  }

  ghost predicate Denotes(p: string, v: string) {
    exists fills :: Instance(p, fills) == Some(v)
  }

  lemma {:induction false} InstanceIsFilled(p: string, fills: seq<string>)
    requires '?' !in p && forall f <- fills :: OneLine(f)
    ensures Filled(p, fills) == Instance(p, fills)
  {
    if p != "" {
      if p[0] == '*' && fills != [] {
        assert fills[0] in fills && forall f <- fills[1..] :: f in fills;
        InstanceIsFilled(p[1..], fills[1..]);
      } else if p[0] != '*' {
        InstanceIsFilled(p[1..], fills);
      }
    }
  }

  lemma {:induction false} FillsAreParts(p: string, fills: seq<string>)
    requires Instance(p, fills).Some? && OneLine(Instance(p, fills).value)
    ensures forall f <- fills :: OneLine(f)
  {
    if p != "" {
      var v := Instance(p, fills).value;
      var more := if p[0] == '*' then fills[1..] else fills;
      var rest := Instance(p[1..], more).value;
      assert forall c <- rest :: c in v;
      FillsAreParts(p[1..], more);
      if p[0] == '*' { assert forall c <- fills[0] :: c in v; }
    }
  }

  lemma {:induction false} FilledFills(p: string, fills: seq<string>)
    requires '?' !in p && Filled(p, fills).Some?
    ensures forall f <- fills :: OneLine(f)
  {
    if p != "" {
      FilledFills(p[1..], if p[0] == '*' then fills[1..] else fills);
    }
  }

  /** Without question marks, and on one line, a pattern spells what it denotes. */
  lemma SpellsIsDenotes(p: string, v: string)
    requires '?' !in p && OneLine(v)
    ensures Spells(p, v) <==> Denotes(p, v)
  {
    if Spells(p, v) {
      var fills :| Filled(p, fills) == Some(v);
      FilledFills(p, fills);
      InstanceIsFilled(p, fills);
    }
    if Denotes(p, v) {
      var fills :| Instance(p, fills) == Some(v);
      FillsAreParts(p, fills);
      InstanceIsFilled(p, fills);
    }
  }

  // ---- The translation, character by character

  /** The items a pattern stands for. */
  function Items(p: string): seq<Item>
    decreases |p|
  {
    if p == "" then [] else [FirstItem(p)] + Items(p[1 + Marks(p)..])
  }

  function FirstItem(p: string): Item
    requires p != ""
  {
    if p[0] == '*' then Item(Dot, Star) else Item(Char(p[0]), if Marks(p) == 0 then Once else Optional)
  }

  function TranslateChar(c: char): string {
    if c == '*' then ".*" else if c in SPECIAL then ['\\', c] else [c]
  }

  lemma {:induction false} ReplaceStarsAppend(a: string, b: string)
    ensures ReplaceStars(a + b) == ReplaceStars(a) + ReplaceStars(b)
  {
    if a == "" {
      assert a + b == b;
    } else {
      assert (a + b)[1..] == a[1..] + b;
      ReplaceStarsAppend(a[1..], b);
    }
  }

  lemma TranslateOne(c: char)
    ensures ReplaceStars(if c in SPECIAL then ['\\', c] else [c]) == TranslateChar(c)
  {
    assert '*' !in SPECIAL;
    var one, two := [c], ['\\', c];
    assert one[1..] == "" && two[1..] == one;
    assert ReplaceStars(one) == (if c == '*' then ".*" else [c]) + "";
    if c in SPECIAL {
      assert ReplaceStars(two) == ['\\'] + ReplaceStars(one);
    }
  }

  lemma TranslateCons(p: string)
    requires p != ""
    ensures Translate(p) == TranslateChar(p[0]) + Translate(p[1..])
  {
    var head := if p[0] in SPECIAL then ['\\', p[0]] else [p[0]];
    assert Escape(p) == head + Escape(p[1..]);
    hide ReplaceStars, TranslateChar;
    TranslateOne(p[0]);
    ReplaceStarsAppend(head, Escape(p[1..]));
  }

  /** The translation of a pattern starts with `?` exactly when the pattern does, and never with `*`. */
  lemma LeadingMark(p: string)
    ensures p == "" ==> Translate(p) == ""
    ensures p != "" ==> |Translate(p)| > 0 && (Translate(p)[0] == '?' <==> p[0] == '?') && Translate(p)[0] != '*'
    ensures p != "" && p[0] == '?' ==> Translate(p)[1..] == Translate(p[1..])
  {
    if p != "" {
      TranslateCons(p);
      assert '?' !in SPECIAL;
    }
  }

  /** The quantifier and lazy mark after the first character are its own marks. */
  lemma MarksTaken(p: string)
    requires p != "" && p[0] != '?'
    ensures var s, more := Translate(p[1..]), p[1 + Marks(p)..];
            p[0] != '*' ==> TakeQuantifier(s) == (if Marks(p) == 0 then Once else Optional, Translate(more))
    ensures p[0] == '*' ==> TakeQuantifier("*" + Translate(p[1..])) == (Star, Translate(p[1 + Marks(p)..]))
  {
    hide Translate;
    var more := p[1..];
    var s := Translate(more);
    LeadingMark(more);
    assert ("*" + s)[1..] == s;
    if more != "" && more[0] == '?' {
      LeadingMark(more[1..]);
      assert more[1..] == p[2..] && ("*" + s)[2..] == s[1..];
      if |p| > 2 && p[2] == '?' { assert more[1..][1..] == p[3..] && s[1..][1..] == s[2..]; }
    }
  }

  /** The translation's first item is the first character with its marks. */
  lemma ParseFirst(p: string)
    requires p != "" && p[0] != '?'
    ensures Parse(Translate(p)) == match Parse(Translate(p[1 + Marks(p)..]))
              case None => None
              case Some(items) => Some([FirstItem(p)] + items)
  {
    hide Translate;
    TranslateCons(p);
    MarksTaken(p);
    var s, more := Translate(p), Translate(p[1..]);
    if p[0] == '*' {
      assert s[1..] == "*" + more;
    } else if p[0] in SPECIAL {
      assert s[2..] == more;
    } else {
      assert s[1..] == more;
    }
  }

  lemma ParseEnds(p: string)
    ensures p == "" ==> Parse(Translate(p)) == Some([])
    ensures p != "" && p[0] == '?' ==> Parse(Translate(p)).None?
  {
    hide Translate;
    LeadingMark(p);
  }

  /** A third question mark in a row, or a second one after a star, at position `i + 2`. */
  predicate NothingToRepeat(p: string, i: int) {
    0 <= i && i + 2 < |p| && (p[i] == '?' || p[i] == '*') && p[i + 1] == '?' && p[i + 2] == '?'
  }

  predicate MarksOk(p: string) {
    (p != "" ==> p[0] != '?') && forall i :: 0 <= i < |p| ==> !NothingToRepeat(p, i)
  }

  /** Dropping the first character with the marks it takes. */
  lemma MarksStep(p: string)
    requires p != "" && p[0] != '?'
    ensures MarksOk(p) <==> MarksOk(p[1 + Marks(p)..])
  {
    var n := Marks(p);
    var rest := p[1 + n..];
    assert rest != "" && rest[0] == '?' ==> NothingToRepeat(p, n - 1);
    forall i | 0 <= i < |rest| ensures NothingToRepeat(rest, i) <==> NothingToRepeat(p, i + 1 + n) {}
    forall i | 0 <= i < |p| ensures NothingToRepeat(p, i) ==> i >= 1 + n || (rest != "" && rest[0] == '?') {}
    forall i | 1 + n <= i < |p| ensures NothingToRepeat(p, i) <==> NothingToRepeat(rest, i - 1 - n) {}
  }

  lemma NoMarks(p: string)
    ensures p == "" ==> MarksOk(p)
    ensures p != "" && p[0] == '?' ==> !MarksOk(p)
  {
  }

  /** The translation of a pattern is ill-formed exactly if a question mark is misplaced, and else parses to the items
      the pattern stands for. */
  lemma {:induction false} TranslationParses(p: string)
    ensures Parse(Translate(p)) == if MarksOk(p) then Some(Items(p)) else None
    decreases |p|
  {
    hide Translate, MarksOk, Parse, FirstItem, Marks;
    NoMarks(p);
    ParseEnds(p);
    if p != "" && p[0] != '?' {
      ParseFirst(p);
      MarksStep(p);
      TranslationParses(p[1 + Marks(p)..]);
    }
  }

  /** `globMatch` throws, on every value alike, exactly for patterns with a misplaced question mark. */
  lemma GlobThrowsExactly(p: string, v: string)
    ensures GlobMatch(p, v).None? <==> !MarksOk(p)
  {
    TranslationParses(p);
    if p == "*" { assert MarksOk("*"); }
  }

  // ---- The items accept what the pattern spells

  lemma SpellsEmpty(v: string)
    ensures Spells("", v) <==> v == ""
  {
    assert Filled("", []) == Some("");
  }

  lemma SpellsPlain(p: string, v: string)
    requires p != "" && p[0] != '*' && Marks(p) == 0
    ensures Spells(p, v) <==> v != "" && v[0] == p[0] && Spells(p[1..], v[1..])
  {
    if Spells(p, v) {
      var fills :| Filled(p, fills) == Some(v);
      var rest := Filled(p[1..], fills).value;
      assert v == [p[0]] + rest;
      assert Filled(p[1..], fills) == Some(v[1..]);
    }
    if v != "" && v[0] == p[0] && Spells(p[1..], v[1..]) {
      var fills :| Filled(p[1..], fills) == Some(v[1..]);
      assert [p[0]] + v[1..] == v;
      assert Filled(p, fills) == Some(v);
    }
  }

  lemma FilledCons(p: string, fill: string, fills: seq<string>, v: string)
    requires p != "" && (p[0] == '*' || Marks(p) > 0) && Filled(p[1 + Marks(p)..], fills) == Some(v)
    requires if p[0] == '*' then OneLine(fill) else fill in {"", [p[0]]}
    ensures Spells(p, fill + v)
  {
    assert ([fill] + fills)[1..] == fills;
    assert Filled(p, [fill] + fills) == Some(fill + v);
  }

  lemma SpellsMarked(p: string, v: string)
    requires p != "" && p[0] != '*' && Marks(p) > 0
    ensures var rest := p[1 + Marks(p)..];
            Spells(p, v) <==> Spells(rest, v) || (v != "" && v[0] == p[0] && Spells(rest, v[1..]))
  {
    hide Marks;
    var rest := p[1 + Marks(p)..];
    if Spells(p, v) {
      var fills :| Filled(p, fills) == Some(v);
      var w := Filled(rest, fills[1..]).value;
      assert Spells(rest, w);
      assert v == fills[0] + w;
      assert if fills[0] == "" then v == w else v[0] == p[0] && v[1..] == w;
    }
    hide Filled;
    if Spells(rest, v) {
      var fills :| Filled(rest, fills) == Some(v);
      FilledCons(p, "", fills, v);
      assert "" + v == v;
    }
    if v != "" && v[0] == p[0] && Spells(rest, v[1..]) {
      var fills :| Filled(rest, fills) == Some(v[1..]);
      FilledCons(p, [p[0]], fills, v[1..]);
      assert [p[0]] + v[1..] == v;
    }
  }

  lemma SpellsStar(p: string, v: string)
    requires p != "" && p[0] == '*'
    ensures Spells(p, v) <==> Spells(p[1 + Marks(p)..], v) || (v != "" && !LineTerminator(v[0]) && Spells(p, v[1..]))
  {
    hide Marks;
    var more := p[1 + Marks(p)..];
    if Spells(p, v) {
      var fills :| Filled(p, fills) == Some(v);
      var rest := Filled(more, fills[1..]).value;
      if fills[0] == "" {
        assert v == rest;
      } else {
        assert fills[0][0] in fills[0] && forall c <- fills[0][1..] :: c in fills[0];
        FilledCons(p, fills[0][1..], fills[1..], rest);
        assert v[1..] == fills[0][1..] + rest;
      }
    }
    if Spells(more, v) {
      var fills :| Filled(more, fills) == Some(v);
      FilledCons(p, "", fills, v);
      assert "" + v == v;
    }
    if v != "" && !LineTerminator(v[0]) && Spells(p, v[1..]) {
      LongerFill(p, v);
    }
  }

  lemma LongerFill(p: string, v: string)
    requires p != "" && p[0] == '*' && v != "" && !LineTerminator(v[0]) && Spells(p, v[1..])
    ensures Spells(p, v)
  {
    hide Marks;
    var fills :| Filled(p, fills) == Some(v[1..]);
    var rest := Filled(p[1 + Marks(p)..], fills[1..]).value;
    FilledCons(p, [v[0]] + fills[0], fills[1..], rest);
    assert [v[0]] + fills[0] + rest == [v[0]] + (fills[0] + rest) == v by { hide Filled; }
  }

  /** The items accept exactly what the pattern spells, whatever the value. */
  lemma {:induction false} ItemsDenote(p: string, v: string)
    ensures Accepts(Items(p), v) <==> Spells(p, v)
    decreases |p|, |v|
  {
    hide Spells, Marks;
    if p == "" {
      SpellsEmpty(v);
    } else {
      var more := p[1 + Marks(p)..];
      assert Items(p)[1..] == Items(more);
      ItemsDenote(more, v);
      if v != "" {
        ItemsDenote(more, v[1..]);
        if p[0] == '*' { ItemsDenote(p, v[1..]); }
      }
      if p[0] == '*' {
        SpellsStar(p, v);
      } else if Marks(p) == 0 {
        SpellsPlain(p, v);
      } else {
        SpellsMarked(p, v);
      }
    }
  }

  /** What a pattern that does not throw matches: whatever it spells; the single star matches everything. */
  lemma GlobMatchMeans(p: string, v: string)
    requires MarksOk(p)
    ensures GlobMatch(p, v) == Some(p == "*" || Spells(p, v))
  {
    hide Spells;
    TranslationParses(p);
    ItemsDenote(p, v);
  }

  // ---- Question marks in globs

  /** The shortest value the items accept: their mandatory characters. */
  function Least(items: seq<Item>): string {
    if items == [] then ""
    else (if items[0].quantifier == Once && items[0].atom.Char? then [items[0].atom.c] else "") + Least(items[1..])
  }

  /** Every dot is starred, and no mandatory character is a question mark. */
  predicate Tame(items: seq<Item>) {
    forall i <- items :: i.quantifier == Once ==> i.atom.Char? && i.atom.c != '?' && !LineTerminator(i.atom.c)
  }

  lemma {:induction false} LeastIsAccepted(items: seq<Item>)
    requires Tame(items)
    ensures Accepts(items, Least(items)) && '?' !in Least(items) && OneLine(Least(items))
  {
    if items != [] {
      assert items[0] in items;
      LeastIsAccepted(items[1..]);
      var rest := Least(items[1..]);
      if items[0].quantifier == Once {
        assert ([items[0].atom.c] + rest)[1..] == rest;
      } else {
        assert "" + rest == rest;
      }
    }
  }

  lemma {:induction false} ItemsAreTame(p: string)
    requires OneLine(p) && MarksOk(p)
    ensures Tame(Items(p))
    decreases |p|
  {
    hide MarksOk;
    NoMarks(p);
    if p != "" {
      MarksStep(p);
      assert p[0] in p && forall c <- p[1 + Marks(p)..] :: c in p;
      ItemsAreTame(p[1 + Marks(p)..]);
    }
  }

  lemma {:induction false} InstanceKeepsMarks(p: string, fills: seq<string>)
    requires '?' in p && Instance(p, fills).Some?
    ensures '?' in Instance(p, fills).value
  {
    if p[0] == '*' {
      InstanceKeepsMarks(p[1..], fills[1..]);
    } else if p[0] != '?' {
      InstanceKeepsMarks(p[1..], fills);
    }
  }

  lemma NoMarksIsOk(p: string)
    requires '?' !in p
    ensures MarksOk(p)
  {
  }

  /** A pattern without a question mark is matched as the glob it denotes, on every one-line value. A one-line
      pattern with one never is: its expression is ill-formed or accepts a value no instance of the pattern equals. */
  lemma GlobMatchIsGlobExactly(p: string)
    ensures '?' !in p ==> forall v :: OneLine(v) ==> GlobMatch(p, v) == Some(Denotes(p, v))
    ensures '?' in p && OneLine(p) ==> exists v :: OneLine(v) && GlobMatch(p, v) != Some(Denotes(p, v))
  {
    hide MarksOk, Spells;
    if '?' !in p {
      NoMarksIsOk(p);
      forall v | OneLine(v) ensures GlobMatch(p, v) == Some(Denotes(p, v)) {
        GlobMatchMeans(p, v);
        SpellsIsDenotes(p, v);
        if p == "*" { assert [v][1..] == [] && v + "" == v; assert Instance(p, [v]) == Some(v); }
      }
    } else if OneLine(p) {
      TranslationParses(p);
      if !MarksOk(p) {
        assert GlobMatch(p, "").None? && OneLine("");
      } else {
        ItemsAreTame(p);
        LeastIsAccepted(Items(p));
        var v := Least(Items(p));
        assert GlobMatch(p, v) == Some(true);
        if Denotes(p, v) {
          var fills :| Instance(p, fills) == Some(v);
          InstanceKeepsMarks(p, fills);
        }
      }
    }
  }
}
