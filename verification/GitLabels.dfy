/** How `git diff` writes the path of a file on its `---` and `+++` lines, in its default configuration:
    a path with unusual characters is quoted as a C string, and a label with a space gets a tab behind it. */
module GitLabels {
  import opened Prelude
  import opened Decimal

  predicate Unusual(c: char) {
    var u := c as int;
    u < 0x20 || u >= 0x7f || c == '"' || c == '\\'
  }

  predicate Quoted(path: string) {
    exists c :: c in path && Unusual(c)
  }

  function Octal(b: nat): string
    requires b < 256
  {
    ['\\', Digit(b / 64), Digit(b / 8 % 8), Digit(b % 8)]
  }

  function Utf8(u: nat): string
    requires 0x80 <= u < 0x11_0000
  {
    if u < 0x800 then Octal(0xC0 + u / 64) + Octal(0x80 + u % 64)
    else if u < 0x1_0000 then Octal(0xE0 + u / 4096) + Octal(0x80 + u / 64 % 64) + Octal(0x80 + u % 64)
    else Octal(0xF0 + u / 262_144) + Octal(0x80 + u / 4096 % 64) + Octal(0x80 + u / 64 % 64) + Octal(0x80 + u % 64)
  }

  /** The letter of a short escape. */
  function ShortEscape(c: char): Option<char> {
    match c as int
    case 7 => Some('a')
    case 8 => Some('b')
    case 9 => Some('t')
    case 10 => Some('n')
    case 11 => Some('v')
    case 12 => Some('f')
    case 13 => Some('r')
    case 34 => Some('"')
    case 92 => Some('\\')
    case _ => None
  }

  function Escape(c: char): string {
    if !Unusual(c) then [c]
    else if ShortEscape(c).Some? then ['\\', ShortEscape(c).value]
    else if (c as int) < 0x80 then Octal(c as int)
    else Utf8(c as int)
  }

  function Escaped(path: string): string {
    if path == "" then "" else Escape(path[0]) + Escaped(path[1..])
  }

  function Label(side: char, path: string): string {
    if Quoted(path) then "\"" + [side] + "/" + Escaped(path) + "\"" else [side] + "/" + path
  }

  function TabAfter(text: string): string {
    if ' ' in text then "\t" else ""
  }

  /** An unquoted path as it stands on the line: a space in it puts a tab behind it. */
  function Shown(path: string): string {
    if ' ' in path then path + "\t" else path
  }

  predicate NoBreak(s: string) {
    '\n' !in s && '\r' !in s
  }

  lemma OctalHasNoBreak(b: nat)
    requires b < 256
    ensures NoBreak(Octal(b))
  {
  }

  lemma EscapeHasNoBreak(c: char)
    ensures NoBreak(Escape(c))
  {
    hide Octal;
    forall b: nat | b < 256
      ensures NoBreak(Octal(b))
    {
      OctalHasNoBreak(b);
    }
  }

  lemma {:induction false} EscapedHasNoBreak(path: string)
    ensures NoBreak(Escaped(path))
  {
    hide Escape;
    if path != "" {
      EscapeHasNoBreak(path[0]);
      EscapedHasNoBreak(path[1..]);
    }
  }

  lemma UnquotedHasNoBreak(path: string)
    requires !Quoted(path)
    ensures NoBreak(path) && '\t' !in path
  {
    assert Unusual('\n') && Unusual('\r') && Unusual('\t');
  }

  /** Whatever the path, its label is part of one line. */
  lemma LabelHasNoBreak(side: char, path: string)
    requires side == 'a' || side == 'b'
    ensures NoBreak(Label(side, path)) && NoBreak(TabAfter(Label(side, path))) && Label(side, path) != ""
  {
    hide Escaped, Quoted;
    EscapedHasNoBreak(path);
    if !Quoted(path) {
      UnquotedHasNoBreak(path);
    }
  }
}
