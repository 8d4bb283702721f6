/**
 * `shlex.quote` against the word splitting of a POSIX shell: sections 2.2 and 2.3 of the Shell
 * Command Language of IEEE Std 1003.1-2017.
 */
module Shell {
  import opened Wrappers
  import opened Sequences
  import opened Texts

  const NUL: char := 0 as char

  // ---------------------------------------------------------------- shlex.quote

  /** `[\w@%+=:,./-]` for ASCII. */
  predicate IsSafe(c: char) {
    || 'a' <= c <= 'z' || 'A' <= c <= 'Z' || '0' <= c <= '9' || c == '_'
    || c in "@%+=:,./-"
  }

  predicate AllSafe(s: string) {
    forall i :: 0 <= i < |s| ==> IsSafe(s[i])
  }

  /** `s.replace("'", "'\"'\"'")`. */
  function Escape(s: string): string {
    if s == "" then "" else (if s[0] == '\'' then "'\"'\"'" else [s[0]]) + Escape(s[1..])
  }

  /** `shlex.quote`. */
  function Quote(s: string): string {
    if s == "" then "''" else if AllSafe(s) then s else "'" + Escape(s) + "'"
  }

  function QuoteAll(words: seq<string>): (r: seq<string>)
    ensures |r| == |words|
  {
    if words == [] then [] else QuoteAll(words[..|words| - 1]) + [Quote(words[|words| - 1])]
  }

  // ---------------------------------------------------------------- word splitting

  predicate IsBlank(c: char) {
    c == ' ' || c == '\t'
  }

  /** Unquoted, these start an operator, an expansion or a pattern, or end the command. */
  predicate IsActive(c: char) {
    c in "|&;<>()$`*?[\n"
  }

  /** Where the scan is: between words, or in a word outside or inside quotes. */
  datatype Place = Between | Unquoted | SingleQuoted | DoubleQuoted

  /**
   * The words of a command that is nothing but words; None when a shell would do anything else
   * with it, or is still waiting for a quote to close.
   */
  function Scan(s: string, place: Place, word: string, words: seq<string>): Option<seq<string>>
    decreases |s|, if place.Between? then 1 else 0
  {
    if s == "" then
      match place
      case Between => Some(words)
      case Unquoted => Some(words + [word])
      case _ => None
    else
      var c, rest := s[0], s[1..];
      match place
      case Between =>
        if IsBlank(c) then Scan(rest, Between, "", words)
        else if c == '\\' && rest != "" && rest[0] == '\n' then Scan(rest[1..], Between, "", words)
        else if c == '#' || c == '~' then None
        else Scan(s, Unquoted, "", words)
      case Unquoted =>
        if IsBlank(c) then Scan(rest, Between, "", words + [word])
        else if c == '\'' then Scan(rest, SingleQuoted, word, words)
        else if c == '"' then Scan(rest, DoubleQuoted, word, words)
        else if c == '\\' then
          if rest == "" then None
          else Scan(rest[1..], Unquoted, if rest[0] == '\n' then word else word + [rest[0]], words)
        else if IsActive(c) then None
        else Scan(rest, Unquoted, word + [c], words)
      case SingleQuoted =>
        if c == '\'' then Scan(rest, Unquoted, word, words)
        else Scan(rest, SingleQuoted, word + [c], words)
      case DoubleQuoted =>
        if c == '"' then Scan(rest, Unquoted, word, words)
        else if c == '$' || c == '`' then None
        else if c == '\\' then
          if rest == "" then None
          else if rest[0] == '\n' then Scan(rest[1..], DoubleQuoted, word, words)
          else if rest[0] in "$`\"\\" then Scan(rest[1..], DoubleQuoted, word + [rest[0]], words)
          else Scan(rest, DoubleQuoted, word + [c], words)
        else Scan(rest, DoubleQuoted, word + [c], words)
  }

  /** No command and no word holds a NUL. */
  function SplitWords(command: string): Option<seq<string>> {
    if NUL in command then None else Scan(command, Between, "", [])
  }

  // ---------------------------------------------------------------- splitting undoes quoting

  /** Safe characters stand for themselves. */
  lemma {:induction false} ScanSafe(s: string, tail: string, word: string, words: seq<string>)
    requires AllSafe(s)
    ensures Scan(s + tail, Unquoted, word, words) == Scan(tail, Unquoted, word + s, words)
  {
    if s == "" {
      assert s + tail == tail && word + s == word;
    } else {
      ScanSafe(s[1..], tail, word + [s[0]], words);
      assert (s + tail)[1..] == s[1..] + tail;
      assert word + [s[0]] + s[1..] == word + s;
    }
  }

  /** `'"'"'` inside single quotes is one quote character. */
  lemma ScanQuoteMark(tail: string, word: string, words: seq<string>)
    ensures Scan("'\"'\"'" + tail, SingleQuoted, word, words) == Scan(tail, SingleQuoted, word + "'", words)
  {
    var s := "'\"'\"'" + tail;
    var s1, s2, s3, s4 := s[1..], s[1..][1..], s[1..][1..][1..], s[1..][1..][1..][1..];
    assert s1 == "\"'\"'" + tail && s2 == "'\"'" + tail && s3 == "\"'" + tail && s4 == "'" + tail && s4[1..] == tail;
    assert Scan(s, SingleQuoted, word, words) == Scan(s1, Unquoted, word, words) == Scan(s2, DoubleQuoted, word, words);
    assert Scan(s2, DoubleQuoted, word, words) == Scan(s3, DoubleQuoted, word + "'", words) == Scan(s4, Unquoted, word + "'", words);
  }

  /** An escaped text inside single quotes is the text. */
  lemma {:induction false} ScanEscaped(s: string, tail: string, word: string, words: seq<string>)
    ensures Scan(Escape(s) + "'" + tail, SingleQuoted, word, words) == Scan(tail, Unquoted, word + s, words)
  {
    if s == "" {
      assert Escape(s) + "'" + tail == "'" + tail && ("'" + tail)[1..] == tail && word + s == word;
    } else {
      var rest := Escape(s[1..]) + "'" + tail;
      ScanEscaped(s[1..], tail, word + [s[0]], words);
      assert word + [s[0]] + s[1..] == word + s;
      if s[0] == '\'' {
        ScanQuoteMark(rest, word, words);
        assert Escape(s) + "'" + tail == "'\"'\"'" + rest;
        assert word + "'" == word + [s[0]];
      } else {
        assert Escape(s) + "'" + tail == [s[0]] + rest;
        assert ([s[0]] + rest)[1..] == rest;
      }
    }
  }

  /** A quoted word, at the start of a word, is that word. */
  lemma ScanQuoted(word: string, tail: string, words: seq<string>)
    ensures Scan(Quote(word) + tail, Between, "", words) == Scan(tail, Unquoted, word, words)
  {
    if word != "" && AllSafe(word) {
      ScanSafe(word, tail, "", words);
      assert "" + word == word && (word + tail)[0] == word[0];
    } else {
      var body := Escape(word) + "'" + tail;
      ScanEscaped(word, tail, "", words);
      assert "" + word == word;
      assert Quote(word) + tail == "'" + body && ("'" + body)[1..] == body;
    }
  }

  lemma {:induction false} JoinOneMore(parts: seq<string>, last: string)
    requires parts != []
    ensures Join(parts + [last], " ") == Join(parts, " ") + " " + last
  {
    if |parts| > 1 {
      JoinOneMore(parts[1..], last);
      assert (parts + [last])[1..] == parts[1..] + [last];
      assert parts[0] + " " + (Join(parts[1..], " ") + " " + last) == parts[0] + " " + Join(parts[1..], " ") + " " + last;
    } else {
      assert (parts + [last])[1..] == [last];
    }
  }

  lemma {:induction false} ScanQuotedWords(first: seq<string>, tail: string)
    requires first != []
    ensures Scan(Join(QuoteAll(first), " ") + tail, Between, "", []) == Scan(tail, Unquoted, first[|first| - 1], first[..|first| - 1])
  {
    var n := |first| - 1;
    var init, last := first[..n], first[n];
    if n == 0 {
      assert QuoteAll(first) == [Quote(last)] && init == [];
      ScanQuoted(last, tail, []);
    } else {
      var before := Join(QuoteAll(init), " ");
      var next := " " + (Quote(last) + tail);
      JoinOneMore(QuoteAll(init), Quote(last));
      assert Join(QuoteAll(first), " ") + tail == before + next;
      ScanQuotedWords(init, next);
      assert next[1..] == Quote(last) + tail;
      InitLast(init);
      ScanQuoted(last, tail, init);
    }
  }

  lemma {:induction false} EscapeKeepsNul(s: string)
    ensures NUL in Escape(s) <==> NUL in s
  {
    if s != "" {
      EscapeKeepsNul(s[1..]);
      assert s == [s[0]] + s[1..];
    }
  }

  lemma {:induction false} NulOfJoin(parts: seq<string>)
    ensures NUL in Join(parts, " ") <==> exists i :: 0 <= i < |parts| && NUL in parts[i]
  {
    if |parts| > 1 {
      NulOfJoin(parts[1..]);
      if i :| 0 <= i < |parts| && NUL in parts[i] {
        assert i > 0 ==> parts[1..][i - 1] == parts[i];
      }
      if i :| 0 <= i < |parts[1..]| && NUL in parts[1..][i] {
        assert parts[i + 1] == parts[1..][i];
      }
    }
  }

  lemma {:induction false} QuoteAllAt(words: seq<string>, i: nat)
    requires i < |words|
    ensures QuoteAll(words)[i] == Quote(words[i])
  {
    if i < |words| - 1 {
      QuoteAllAt(words[..|words| - 1], i);
    }
  }

  predicate Holdable(words: seq<string>) {
    forall i :: 0 <= i < |words| ==> NUL !in words[i]
  }

  /** Quoted and joined, words split back into themselves exactly when none holds a NUL. */
  lemma SplitUndoesQuoting(words: seq<string>)
    ensures Holdable(words) ==> SplitWords(Join(QuoteAll(words), " ")) == Some(words)
    ensures !Holdable(words) ==> SplitWords(Join(QuoteAll(words), " ")) == None
  {
    var quoted := QuoteAll(words);
    forall i | 0 <= i < |words| ensures NUL in quoted[i] <==> NUL in words[i] {
      QuoteAllAt(words, i);
      EscapeKeepsNul(words[i]);
    }
    NulOfJoin(quoted);
    if words != [] {
      ScanQuotedWords(words, "");
      assert Join(quoted, " ") + "" == Join(quoted, " ");
      InitLast(words);
    }
  }
}
