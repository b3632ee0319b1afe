// Bytes, the ASCII codes the shell compares against, and a few sequence facts that the
// other modules share.
module Bytes {

  type byte = x: int | 0 <= x < 256
  type bytes = seq<byte>

  datatype Option<+T> = None | Some(value: T)

  const NUL: byte := 0x00
  const CTRL_C: byte := 0x03
  const CTRL_D: byte := 0x04
  const BACKSPACE: byte := 0x08
  const TAB: byte := 0x09
  const LF: byte := 0x0A
  const CR: byte := 0x0D
  const ESC: byte := 0x1B
  const SPACE: byte := 0x20
  const DEL: byte := 0x7F

  const BANG: byte := '!' as int
  const HASH: byte := '#' as int
  const DOLLAR: byte := '$' as int
  const PERCENT: byte := '%' as int
  const AMP: byte := '&' as int
  const STAR: byte := '*' as int
  const MINUS: byte := '-' as int
  const DOT: byte := '.' as int
  const SLASH: byte := '/' as int
  const ZERO: byte := '0' as int
  const NINE: byte := '9' as int
  const LESS: byte := '<' as int
  const EQUALS: byte := '=' as int
  const GREATER: byte := '>' as int
  const QUESTION: byte := '?' as int
  const OPEN: byte := '[' as int
  const CLOSE: byte := ']' as int
  const UNDERSCORE: byte := '_' as int
  const LBRACE: byte := '{' as int
  const PIPE: byte := '|' as int
  const RBRACE: byte := '}' as int
  const TILDE: byte := '~' as int

  function Min(a: int, b: int): int {
    if a <= b then a else b
  }

  function Take<T>(s: seq<T>, n: nat): seq<T> {
    s[..Min(|s|, n)]
  }

  // Space, tab, carriage return or line feed (io.rs).
  predicate IsBlank(b: byte) {
    b == SPACE || b == TAB || b == CR || b == LF
  }

  predicate IsDigit(b: byte) {
    ZERO <= b <= NINE
  }

  // Does a line hold a pipe or redirect operator (eval.rs)?
  predicate HasOp(s: bytes) {
    exists k :: 0 <= k < |s| && (s[k] == PIPE || s[k] == GREATER || s[k] == LESS)
  }

  function Ascii(s: string): bytes {
    seq(|s|, k requires 0 <= k < |s| => s[k] as int % 256)
  }

  // Text up to its NUL.
  function CString(text: bytes): bytes {
    if text == [] || text[0] == NUL then [] else [text[0]] + CString(text[1..])
  }

  lemma {:induction false} CStringIs(text: bytes)
    ensures CString(text) <= text && (CString(text) == text <==> NUL !in text)
  {
    if text != [] {
      CStringIs(text[1..]);
      assert text == [text[0]] + text[1..];
      if text[0] != NUL && CString(text) == text {
        assert CString(text[1..]) == text[1..];
      }
    }
  }

  // Facts about sequences, stated so that they can be named where they are needed.
  lemma Assoc<T>(a: seq<T>, b: seq<T>, c: seq<T>)
    ensures a + b + c == a + (b + c)
  {
  }

  lemma Unit<T>(a: seq<T>)
    ensures a + [] == a && [] + a == a
  {
  }

  lemma DropHead<T>(a: seq<T>, b: seq<T>)
    ensures (a + b)[|a|..] == b && (a + b)[..|a|] == a
  {
  }

  // Positions, each once and in order.
  ghost predicate Increasing(ks: seq<nat>) {
    forall a, b :: 0 <= a < b < |ks| ==> ks[a] < ks[b]
  }

  lemma NoneIncreasing()
    ensures Increasing([])
  {
  }

  lemma ConsIncreasing(j: nat, rest: seq<nat>)
    requires Increasing(rest) && forall k :: k in rest ==> j < k
    ensures Increasing([j] + rest)
    ensures forall k :: k in [j] + rest <==> k == j || k in rest
  {
    forall k | 0 <= k < |rest| ensures j < rest[k] {
      assert rest[k] in rest;
    }
  }
}
