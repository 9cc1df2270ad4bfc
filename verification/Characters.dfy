/** Single characters: which are blank, which letters have another case, and what
    trimming takes off. */
module Characters {
  import opened Text

  /** The blank characters of the Unicode Standard (property White_Space). */
  lemma BlankIff(c: char)
    ensures IsWhitespace(c)
            <==> c as int in {0x09, 0x0A, 0x0B, 0x0C, 0x0D, 0x20, 0x85, 0xA0, 0x1680, 0x2000, 0x2001, 0x2002, 0x2003, 0x2004, 0x2005,
                              0x2006, 0x2007, 0x2008, 0x2009, 0x200A, 0x2028, 0x2029, 0x202F, 0x205F, 0x3000}
  {
  }

  /** The letters A to Z become a to z, and nothing else changes. */
  lemma LoweredIs(c: char)
    ensures LowerChar(c) as int == if 65 <= c as int <= 90 then c as int + 32 else c as int
  {
  }

  /** Blanks at both ends come off, and nothing between them. */
  lemma TrimIs(front: string, core: string, back: string)
    requires forall i :: 0 <= i < |front| ==> IsWhitespace(front[i])
    requires forall i :: 0 <= i < |back| ==> IsWhitespace(back[i])
    requires core == "" || (!IsWhitespace(core[0]) && !IsWhitespace(core[|core| - 1]))
    ensures Trim(front + core + back) == core
  {
    hide IsWhitespace, TrimStart, TrimEnd;
    assert front + core + back == front + (core + back);
    FrontOff(front, core + back);
    if core == "" {
      assert core + back == back + "" && back == "" + back;
      FrontOff(back, "");
      BackOff("", "");
      assert "" + "" == "";
    } else {
      StartsWith(core + back);
      BackOff(core, back);
    }
  }

  lemma {:induction false} FrontOff(front: string, rest: string)
    requires forall i :: 0 <= i < |front| ==> IsWhitespace(front[i])
    ensures TrimStart(front + rest) == TrimStart(rest)
  {
    hide IsWhitespace;
    if front == "" {
      assert front + rest == rest;
    } else {
      assert (front + rest)[1..] == front[1..] + rest;
      FrontOff(front[1..], rest);
    }
  }

  lemma StartsWith(s: string)
    ensures s == "" || !IsWhitespace(s[0]) ==> TrimStart(s) == s
  {
  }

  lemma {:induction false} BackOff(core: string, back: string)
    requires forall i :: 0 <= i < |back| ==> IsWhitespace(back[i])
    requires core == "" || !IsWhitespace(core[|core| - 1])
    ensures TrimEnd(core + back) == core
  {
    hide IsWhitespace;
    var s := core + back;
    if back == "" {
      assert s == core;
    } else {
      assert s[|s| - 1] == back[|back| - 1] && s[..|s| - 1] == core + back[..|back| - 1];
      BackOff(core, back[..|back| - 1]);
    }
  }
}
