/**
 * The header's avatar initials: the first character of each space-separated
 * word of the user's name, upper-cased, at most two of them.
 */
module Initials {
  import opened JsString

  /** `word[0]`, where an empty word gives `undefined`, which `join('')` writes as nothing. */
  function Head(word: string): (h: string)
    ensures |h| <= 1 && (h == [] <==> word == [])
  {
    if word == [] then [] else [word[0]]
  }

  /** `map(word => word[0]).join('')`. */
  function Heads(words: seq<string>): string {
    if words == [] then [] else Head(words[0]) + Heads(words[1..])
  }

  /** The reference reading: every non-space character that opens the text or follows a
      space, in order; `atStart` says whether the text begins a word. */
  function WordStarts(s: string, atStart: bool): (starts: string)
    ensures |starts| <= |s|
  {
    if s == [] then []
    else if s[0] == ' ' then WordStarts(s[1..], true)
    else (if atStart then [s[0]] else []) + WordStarts(s[1..], false)
  }

  lemma HeadsCons(w: string, ws: seq<string>)
    ensures Heads([w] + ws) == Head(w) + Heads(ws)
  {
    assert ([w] + ws)[1..] == ws;
  }

  /** Splitting on spaces and taking each piece's first character finds exactly the word
      starts; the pieces after the first find those of a text that does not open a word. */
  lemma {:induction false} HeadsOfSplit(s: string)
    ensures Heads(Split(s, ' ')) == WordStarts(s, true)
    ensures Heads(Split(s, ' ')[1..]) == WordStarts(s, false)
  {
    if s != [] {
      HeadsOfSplit(s[1..]);
      var rest := Split(s[1..], ' ');
      if s[0] == ' ' {
        HeadsCons([], rest);
        assert Split(s, ' ') == [[]] + rest;
        assert Split(s, ' ')[1..] == rest;
      } else {
        assert Split(s, ' ') == [[s[0]] + rest[0]] + rest[1..];
        HeadsCons([s[0]] + rest[0], rest[1..]);
        assert Split(s, ' ')[1..] == rest[1..];
      }
    }
  }

  /** `getUserInitials`: the word starts, upper-cased, cut to two characters. */
  function UserInitials(name: string): (initials: string)
    ensures |initials| <= 2
    ensures initials == Take(ToUpper(WordStarts(name, true)), 2)
  {
    HeadsOfSplit(name);
    Take(ToUpper(Heads(Split(name, ' '))), 2)
  }

  /** The first initial is the capital of the first non-space character. */
  lemma {:induction false} FirstInitial(name: string, i: nat)
    requires i < |name| && name[i] != ' '
    requires forall k :: 0 <= k < i ==> name[k] == ' '
    ensures UserInitials(name) != [] && UserInitials(name)[0] == UpperChar(name[i])
  {
    FirstWordStart(name, i);
    var u := ToUpper(WordStarts(name, true));
    assert u[0] == UpperChar(name[i]);
    assert Take(u, 2)[0] == u[0];
  }

  lemma {:induction false} FirstWordStart(s: string, i: nat)
    requires i < |s| && s[i] != ' '
    requires forall k :: 0 <= k < i ==> s[k] == ' '
    ensures WordStarts(s, true) != [] && WordStarts(s, true)[0] == s[i]
  {
    if i > 0 {
      FirstWordStart(s[1..], i - 1);
    }
  }
}
