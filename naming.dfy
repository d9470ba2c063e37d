/** to_underscore_case (src/main.rs:377-390): CamelCase to snake_case, restricted
    to ASCII letters. */
module Naming {

  predicate IsUpper(c: char) { 'A' <= c <= 'Z' }

  function ToLower(c: char): (l: char)
    requires IsUpper(c)
    ensures 'a' <= l <= 'z'
  {
    (c as int + 32) as char
  }

  /** What one input character becomes: itself, or its lower-case form, preceded
      by '_' when it is upper case and something has already been written. */
  function Piece(c: char, first: bool): string
  {
    if IsUpper(c) then (if first then "" else "_") + [ToLower(c)] else [c]
  }

  /** The snake_case form of a name, character by character. */
  function Snake(name: string): string
  {
    if name == [] then "" else Snake(name[..|name| - 1]) + Piece(name[|name| - 1], |name| == 1)
  }

  /** Number of upper-case letters at positions 1 and later. */
  function UpperAfterFirst(name: string): nat
  {
    if |name| <= 1 then 0
    else UpperAfterFirst(name[..|name| - 1]) + (if IsUpper(name[|name| - 1]) then 1 else 0)
  }

  predicate NoUpper(s: string) { forall i | 0 <= i < |s| :: !IsUpper(s[i]) }

  /** Exactly one '_' is inserted for each upper-case letter after the first position. */
  lemma {:induction false} SnakeLength(name: string)
    ensures |Snake(name)| == |name| + UpperAfterFirst(name)
  {
    if name != [] {
      SnakeLength(name[..|name| - 1]);
    }
  }

  /** The output contains no upper-case letter. */
  lemma {:induction false} SnakeHasNoUpper(name: string)
    ensures NoUpper(Snake(name))
  {
    if name != [] {
      SnakeHasNoUpper(name[..|name| - 1]);
    }
  }

  /** A name without upper-case letters is returned unchanged. */
  lemma {:induction false} SnakeOfLowerIsIdentity(name: string)
    requires NoUpper(name)
    ensures Snake(name) == name
  {
    if name != [] {
      var init := name[..|name| - 1];
      SnakeOfLowerIsIdentity(init);
      assert name == init + [name[|name| - 1]];
    }
  }

  /** Converting twice is the same as converting once. */
  lemma SnakeIdempotent(name: string)
    ensures Snake(Snake(name)) == Snake(name)
  {
    SnakeHasNoUpper(name);
    SnakeOfLowerIsIdentity(Snake(name));
  }

  /** A capitalised single word becomes its lower-case form, with no underscore. */
  lemma {:induction false} SnakeOfCapitalized(c: char, rest: string)
    requires IsUpper(c) && NoUpper(rest)
    ensures Snake([c] + rest) == [ToLower(c)] + rest
  {
    if rest == [] {
      assert [c] + rest == [c];
      assert [c][..0] == [];
    } else {
      var init := rest[..|rest| - 1];
      SnakeOfCapitalized(c, init);
      assert ([c] + rest)[..|[c] + rest| - 1] == [c] + init;
      assert rest == init + [rest[|rest| - 1]];
    }
  }

  /** Every upper-case letter gets its own underscore, also inside a run of capitals. */
  lemma SnakeSplitsEveryCapital()
    ensures Snake("HTTPServer") == "h_t_t_p_server"
  {
    var s := "HTTPServer";
    assert Snake(s[..1]) == "h" by { assert s[..1][..0] == []; }
    assert Snake(s[..2]) == "h_t" by { assert s[..2][..1] == s[..1]; }
    assert Snake(s[..3]) == "h_t_t" by { assert s[..3][..2] == s[..2]; }
    assert Snake(s[..4]) == "h_t_t_p" by { assert s[..4][..3] == s[..3]; }
    assert Snake(s[..5]) == "h_t_t_p_s" by { assert s[..5][..4] == s[..4]; }
    assert Snake(s[..6]) == "h_t_t_p_se" by { assert s[..6][..5] == s[..5]; }
    assert Snake(s[..7]) == "h_t_t_p_ser" by { assert s[..7][..6] == s[..6]; }
    assert Snake(s[..8]) == "h_t_t_p_serv" by { assert s[..8][..7] == s[..7]; }
    assert Snake(s[..9]) == "h_t_t_p_serve" by { assert s[..9][..8] == s[..8]; }
    assert s[..10] == s;
    assert s[..10][..9] == s[..9];
  }

  /** to_underscore_case, as the character loop of the source. */
  method ToUnderscoreCase(name: string) returns (s: string)
    ensures s == Snake(name)
  {
    s := "";
    var i := 0;
    while i < |name|
      invariant 0 <= i <= |name|
      invariant s == Snake(name[..i])
      invariant |s| > 0 <==> i > 0
    {
      var ch := name[i];
      assert name[..i + 1][..i] == name[..i];
      if IsUpper(ch) {
        if |s| > 0 {
          s := s + "_";
        }
        s := s + [ToLower(ch)];
      } else {
        s := s + [ch];
      }
      i := i + 1;
    }
    assert name[..i] == name;
  }
}
