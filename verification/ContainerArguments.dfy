/** Rewriting the arguments of an image build, and reading the tag the build asks for. */
module ContainerArguments {
  import opened Options
  import opened Texts

  const BUILD := "build"
  const END_OF_OPTIONS := "--"
  const DISABLED := "--provenance=false"
  const TAG_PREFIX := "--tag="
  const VALUE_FLAGS: set<string> := {"-t", "--tag", "--platform", "--build-arg", "--network", "-f", "--file"}
  const IMAGE_PREFIX := "cloudflare-dev/sandbox:"

  predicate Ends(arg: string) { arg == END_OF_OPTIONS }

  predicate Disabled(arg: string) { arg == DISABLED }

  predicate TakesValue(arg: string) { arg in VALUE_FLAGS }

  predicate NamesTag(arg: string) { arg == "-t" || arg == "--tag" }

  function InlineTag(arg: string): seq<string> {
    if TAG_PREFIX <= arg then [arg[|TAG_PREFIX|..]] else []
  }

  predicate ImageTag(s: string) {
    IMAGE_PREFIX <= s && |s| == |IMAGE_PREFIX| + 8
    && forall i :: |IMAGE_PREFIX| <= i < |s| ==> IsHex(s[i])
  }

  lemma DisabledIsPlain(arg: string)
    requires Disabled(arg)
    ensures !Ends(arg) && !TakesValue(arg) && InlineTag(arg) == []
  {
    assert arg[2] == 'p' && |arg| == 18;
    assert |"-t"| == 2 && |"--tag"| == 5 && |"--platform"| == 10 && |"--build-arg"| == 11;
    assert |"--network"| == 9 && |"-f"| == 2 && |"--file"| == 6;
    assert TAG_PREFIX[2] == 't';
  }

  // ---------------------------------------------------------------- rewriting

  /** The rewritten form of what follows the word build. */
  function Translate(args: seq<string>): seq<string> {
    if args == [] then []
    else if Ends(args[0]) then args
    else if TakesValue(args[0]) && |args| > 1 then
      (if Disabled(args[0]) then [] else [args[0]]) + [args[1]] + Translate(args[2..])
    else (if Disabled(args[0]) then [] else [args[0]]) + Translate(args[1..])
  }

  function Rewritten(args: seq<string>): seq<string> {
    if args == [] || args[0] != BUILD then args else [BUILD] + Translate(args[1..])
  }

  lemma TranslateStep(args: seq<string>, i: nat)
    requires i < |args|
    ensures Ends(args[i]) ==> Translate(args[i..]) == args[i..]
    ensures !Ends(args[i]) && !(TakesValue(args[i]) && i + 1 < |args|) ==>
      Translate(args[i..]) == (if Disabled(args[i]) then [] else [args[i]]) + Translate(args[i + 1..])
    ensures !Ends(args[i]) && TakesValue(args[i]) && i + 1 < |args| ==>
      Translate(args[i..]) == (if Disabled(args[i]) then [] else [args[i]]) + [args[i + 1]] + Translate(args[i + 2..])
  {
    hide Ends, Disabled, TakesValue;
    assert args[i..][0] == args[i] && args[i..][1..] == args[i + 1..];
    if i + 1 < |args| { assert args[i..][2..] == args[i + 2..] && args[i..][1] == args[i + 1]; }
  }

  /** What the loop has copied before an argument, followed by the argument unless it is disabled. */
  function Copied(copied: seq<string>, arg: string): seq<string> { if Disabled(arg) then copied else copied + [arg] }

  lemma CopiedStep(copied: seq<string>, arg: string, rest: seq<string>)
    ensures Copied(copied, arg) + rest == copied + ((if Disabled(arg) then [] else [arg]) + rest)
  {
    hide Disabled;
    if !Disabled(arg) { assert copied + [arg] + rest == copied + ([arg] + rest); }
  }

  /** One turn of the loop moves one argument, or a flag and its value, from the rest to what is copied. */
  lemma CopyStep(args: seq<string>, i: nat, copied: seq<string>)
    requires i < |args| && !Ends(args[i])
    ensures TakesValue(args[i]) && i + 1 < |args| ==>
      Copied(copied, args[i]) + [args[i + 1]] + Translate(args[i + 2..]) == copied + Translate(args[i..])
    ensures !(TakesValue(args[i]) && i + 1 < |args|) ==>
      Copied(copied, args[i]) + Translate(args[i + 1..]) == copied + Translate(args[i..])
  {
    hide Ends, Disabled, TakesValue, Translate, Copied;
    TranslateStep(args, i);
    if TakesValue(args[i]) && i + 1 < |args| {
      var value, rest := [args[i + 1]], Translate(args[i + 2..]);
      CopiedStep(copied, args[i], value + rest);
      assert Copied(copied, args[i]) + value + rest == Copied(copied, args[i]) + (value + rest);
      var own := if Disabled(args[i]) then [] else [args[i]];
      assert own + value + rest == own + (value + rest);
    } else {
      CopiedStep(copied, args[i], Translate(args[i + 1..]));
    }
  }

  /** Copies the arguments, leaving out the disabled option; a flag that takes a value takes it along unread. */
  method PodmanArguments(args: seq<string>) returns (translated: seq<string>)
    ensures translated == Rewritten(args)
  {
    if args == [] || args[0] != BUILD {
      assert Rewritten(args) == args;
      return args;
    }
    translated := [BUILD];
    var index := 1;
    assert translated + Translate(args[1..]) == Rewritten(args);
    assert Translate([]) == [];
    hide Ends, Disabled, TakesValue, Rewritten, Translate;
    while index < |args|
      invariant 1 <= index <= |args|
      invariant translated + Translate(args[index..]) == Rewritten(args)
      decreases |args| - index
    {
      var arg := args[index];
      if Ends(arg) {
        TranslateStep(args, index);
        translated := translated + args[index..];
        return;
      }
      CopyStep(args, index, translated);
      if !Disabled(arg) { translated := translated + [arg]; }
      if TakesValue(arg) && index + 1 < |args| {
        index := index + 1;
        translated := translated + [args[index]];
      }
      index := index + 1;
    }
  }

  // ---------------------------------------------------------------- the requested tag

  /** The tags asked for, or None when the last flag lacks its value. */
  function Tags(args: seq<string>): Option<seq<string>> {
    if args == [] || Ends(args[0]) then Some([])
    else if !TakesValue(args[0]) then Prepend(InlineTag(args[0]), Tags(args[1..]))
    else if |args| == 1 then None
    else Prepend(InlineTag(args[0]) + (if NamesTag(args[0]) then [args[1]] else []), Tags(args[2..]))
  }

  function Prepend(tags: seq<string>, rest: Option<seq<string>>): Option<seq<string>> {
    if rest.None? then None else Some(tags + rest.value)
  }

  /** The one tag of a build, when it is a sandbox image. */
  function BuildTag(args: seq<string>): Option<string> {
    if args == [] || args[0] != BUILD then None
    else
      var tags := Tags(args[1..]);
      if tags.Some? && |tags.value| == 1 && ImageTag(tags.value[0]) then Some(tags.value[0]) else None
  }

  method PodmanBuildTag(args: seq<string>) returns (tag: Option<string>)
    ensures tag == BuildTag(args)
  {
    hide Ends, TakesValue, NamesTag, InlineTag, ImageTag;
    if args == [] || args[0] != BUILD { return None; }
    var tags: seq<string> := [];
    var index := 1;
    PrependNothing(Tags(args[1..]));
    while index < |args|
      invariant 1 <= index <= |args|
      invariant Prepend(tags, Tags(args[index..])) == Tags(args[1..])
      decreases |args| - index
    {
      var arg := args[index];
      assert args[index..][0] == arg && args[index..][1..] == args[index + 1..];
      if Ends(arg) { break; }
      var found := InlineTag(arg);
      if TakesValue(arg) {
        index := index + 1;
        if index == |args| { return None; }
        assert args[index - 1..][2..] == args[index + 1..] && args[index - 1..][1] == args[index];
        if NamesTag(arg) { found := found + [args[index]]; } else { assert found + [] == found; }
      }
      index := index + 1;
      PrependTwice(tags, found, Tags(args[index..]));
      tags := tags + found;
    }
    assert tags + [] == tags;
    tag := if |tags| == 1 && ImageTag(tags[0]) then Some(tags[0]) else None;
  }

  lemma PrependNothing(rest: Option<seq<string>>)
    ensures Prepend([], rest) == rest
  {
    if rest.Some? { assert [] + rest.value == rest.value; }
  }

  lemma PrependTwice(a: seq<string>, b: seq<string>, rest: Option<seq<string>>)
    ensures Prepend(a, Prepend(b, rest)) == Prepend(a + b, rest)
  {
    if rest.Some? { assert a + (b + rest.value) == a + b + rest.value; }
  }

  // ---------------------------------------------------------------- what rewriting keeps

  lemma {:induction false} TranslateKeepsTags(args: seq<string>)
    ensures Tags(Translate(args)) == Tags(args)
  {
    hide Ends, Disabled, TakesValue, NamesTag, InlineTag;
    if args != [] && !Ends(args[0]) {
      var t := Translate(args);
      if Disabled(args[0]) {
        DisabledIsPlain(args[0]);
        TranslateKeepsTags(args[1..]);
        assert t == Translate(args[1..]);
        if Tags(args[1..]).Some? { assert [] + Tags(args[1..]).value == Tags(args[1..]).value; }
      } else if TakesValue(args[0]) && |args| > 1 {
        TranslateKeepsTags(args[2..]);
        assert t[0] == args[0] && t[1] == args[1] && t[2..] == Translate(args[2..]);
      } else {
        TranslateKeepsTags(args[1..]);
        assert t[0] == args[0] && t[1..] == Translate(args[1..]);
        if TakesValue(args[0]) { assert Translate(args[1..]) == []; }
      }
    }
  }

  /** The build asks for the same tag before and after rewriting. */
  lemma RewritingKeepsTag(args: seq<string>)
    ensures BuildTag(Rewritten(args)) == BuildTag(args)
  {
    if args != [] && args[0] == BUILD {
      TranslateKeepsTags(args[1..]);
      assert ([BUILD] + Translate(args[1..]))[1..] == Translate(args[1..]);
    }
  }

  lemma {:induction false} TranslateTwice(args: seq<string>)
    ensures Translate(Translate(args)) == Translate(args)
  {
    hide Ends, Disabled, TakesValue;
    if args != [] && !Ends(args[0]) {
      var t := Translate(args);
      if Disabled(args[0]) {
        DisabledIsPlain(args[0]);
        TranslateTwice(args[1..]);
        assert t == Translate(args[1..]);
      } else if TakesValue(args[0]) && |args| > 1 {
        TranslateTwice(args[2..]);
        assert t[0] == args[0] && t[1] == args[1] && t[2..] == Translate(args[2..]);
      } else {
        TranslateTwice(args[1..]);
        assert t[0] == args[0] && t[1..] == Translate(args[1..]);
        if TakesValue(args[0]) { assert Translate(args[1..]) == []; }
      }
    }
  }

  /** Rewriting twice is rewriting once. */
  lemma RewritingIsIdempotent(args: seq<string>)
    ensures Rewritten(Rewritten(args)) == Rewritten(args)
  {
    if args != [] && args[0] == BUILD {
      TranslateTwice(args[1..]);
      assert ([BUILD] + Translate(args[1..]))[1..] == Translate(args[1..]);
    }
  }

  // ---------------------------------------------------------------- exactly what is left out

  datatype Place = AsOption | AsValue | AfterEnd

  /** How an argument parser takes the argument at i: it follows from the one before. */
  function PlaceOf(args: seq<string>, i: nat): Place
    requires i <= |args|
  {
    if i == 0 then AsOption
    else
      match PlaceOf(args, i - 1)
      case AfterEnd => AfterEnd
      case AsValue => AsOption
      case AsOption =>
        if Ends(args[i - 1]) then AfterEnd else if TakesValue(args[i - 1]) then AsValue else AsOption
  }

  predicate LeftOut(args: seq<string>, i: nat)
    requires i < |args|
  {
    PlaceOf(args, i).AsOption? && Disabled(args[i])
  }

  /** The first n arguments without those left out. */
  function Kept(args: seq<string>, n: nat): seq<string>
    requires n <= |args|
  {
    if n == 0 then [] else Kept(args, n - 1) + (if LeftOut(args, n - 1) then [] else [args[n - 1]])
  }

  lemma {:induction false} KeptAfterEnd(args: seq<string>, i: nat, n: nat)
    requires i <= n <= |args| && PlaceOf(args, i).AfterEnd?
    ensures PlaceOf(args, n).AfterEnd? && Kept(args, n) == Kept(args, i) + args[i..n]
    decreases n
  {
    if i < n {
      KeptAfterEnd(args, i, n - 1);
      assert args[i..n] == args[i..n - 1] + [args[n - 1]];
    }
  }

  lemma OptionStep(args: seq<string>, i: nat)
    requires i < |args| && PlaceOf(args, i).AsOption? && !Ends(args[i]) && !TakesValue(args[i])
    ensures PlaceOf(args, i + 1).AsOption?
    ensures Kept(args, i + 1) == Kept(args, i) + (if Disabled(args[i]) then [] else [args[i]])
  {
  }

  lemma ValueStep(args: seq<string>, i: nat)
    requires i + 1 < |args| && PlaceOf(args, i).AsOption? && !Ends(args[i]) && TakesValue(args[i])
    ensures PlaceOf(args, i + 2).AsOption?
    ensures Kept(args, i + 2) == Kept(args, i) + ((if Disabled(args[i]) then [] else [args[i]]) + [args[i + 1]])
  {
    hide Ends, Disabled, TakesValue;
    assert PlaceOf(args, i + 1).AsValue?;
    assert Kept(args, i + 1) == Kept(args, i) + (if Disabled(args[i]) then [] else [args[i]]);
  }

  lemma Append(a: seq<string>, b: seq<string>, c: seq<string>)
    ensures a + b + c == a + (b + c)
  {
  }

  lemma EndStep(args: seq<string>, i: nat)
    requires i < |args| && PlaceOf(args, i).AsOption? && Ends(args[i])
    ensures Kept(args, |args|) == Kept(args, i) + args[i..]
  {
    EndIsKept(args, i);
    hide Ends, Disabled, TakesValue, Kept, LeftOut, PlaceOf;
    KeptAfterEnd(args, i + 1, |args|);
    Append(Kept(args, i), [args[i]], args[i + 1..|args|]);
    assert args[i..] == [args[i]] + args[i + 1..|args|];
  }

  lemma EndIsKept(args: seq<string>, i: nat)
    requires i < |args| && PlaceOf(args, i).AsOption? && Ends(args[i])
    ensures PlaceOf(args, i + 1).AfterEnd? && Kept(args, i + 1) == Kept(args, i) + [args[i]]
  {
    hide Ends, Disabled, TakesValue;
    if Disabled(args[i]) { DisabledIsPlain(args[i]); }
  }

  lemma {:induction false} TranslateFrom(args: seq<string>, i: nat)
    requires i <= |args| && PlaceOf(args, i).AsOption?
    ensures Kept(args, i) + Translate(args[i..]) == Kept(args, |args|)
    decreases |args| - i
  {
    if i == |args| {
      assert args[i..] == [];
    } else if Ends(args[i]) {
      TranslateStep(args, i);
      EndStep(args, i);
    } else if TakesValue(args[i]) && i + 1 < |args| {
      hide Kept, Translate, Ends, Disabled, TakesValue, PlaceOf;
      ValueStep(args, i);
      TranslateFrom(args, i + 2);
      ValueIsKept(args, i);
    } else {
      LoneOptionIsKept(args, i);
      hide Kept, Translate, Ends, Disabled, TakesValue, PlaceOf;
      if TakesValue(args[i]) {
        assert args[i + 1..] == [];
      } else {
        OptionStep(args, i);
        TranslateFrom(args, i + 1);
      }
    }
  }

  lemma ValueIsKept(args: seq<string>, i: nat)
    requires i + 1 < |args| && PlaceOf(args, i).AsOption? && !Ends(args[i]) && TakesValue(args[i])
    ensures Kept(args, i) + Translate(args[i..]) == Kept(args, i + 2) + Translate(args[i + 2..])
  {
    hide Kept, Translate, Ends, Disabled, TakesValue, PlaceOf;
    ValueStep(args, i);
    TranslateStep(args, i);
    Append(Kept(args, i), (if Disabled(args[i]) then [] else [args[i]]) + [args[i + 1]], Translate(args[i + 2..]));
  }

  lemma OptionIsKept(args: seq<string>, i: nat)
    requires i < |args| && PlaceOf(args, i).AsOption?
    ensures Kept(args, i + 1) == Kept(args, i) + (if Disabled(args[i]) then [] else [args[i]])
  {
    hide Ends, Disabled, TakesValue;
  }

  lemma NothingToTranslate()
    ensures Translate([]) == []
  {
  }

  lemma LoneOptionIsKept(args: seq<string>, i: nat)
    requires i < |args| && PlaceOf(args, i).AsOption? && !Ends(args[i])
    requires !(TakesValue(args[i]) && i + 1 < |args|)
    ensures Kept(args, i) + Translate(args[i..]) == Kept(args, i + 1) + Translate(args[i + 1..])
    ensures Translate([]) == []
  {
    hide *;
    OptionIsKept(args, i);
    TranslateStep(args, i);
    NothingToTranslate();
    Append(Kept(args, i), if Disabled(args[i]) then [] else [args[i]], Translate(args[i + 1..]));
  }

  /**
   The rewritten build is the original without exactly the disabled options in option position before the end of
   options.
   */
  lemma RewritingLeavesOutOptions(args: seq<string>)
    requires args != [] && args[0] == BUILD
    ensures Rewritten(args) == [BUILD] + Kept(args[1..], |args| - 1)
  {
    TranslateFrom(args[1..], 0);
    assert args[1..][0..] == args[1..];
    assert Kept(args[1..], 0) + Translate(args[1..]) == Translate(args[1..]);
  }
}
