/** Which tag a build asks for, by the position of every argument. */
module ContainerTags {
  import opened ContainerArguments
  import opened Options
  import opened Texts

  /** The last argument is a flag in option position that takes a value. */
  predicate LacksValue(args: seq<string>) {
    && args != [] && PlaceOf(args, |args| - 1).AsOption?
    && args[|args| - 1] in {"-t", "--tag", "--platform", "--build-arg", "--network", "-f", "--file"}
  }

  /** The tag an argument asks for: the value after -t or --tag, or what follows --tag= in an option. */
  function TagAt(args: seq<string>, i: nat): seq<string>
    requires i < |args|
  {
    match PlaceOf(args, i)
    case AsOption => if |args[i]| >= 6 && args[i][..6] == "--tag=" then [args[i][6..]] else []
    case AsValue => if i > 0 && (args[i - 1] == "-t" || args[i - 1] == "--tag") then [args[i]] else []
    case AfterEnd => []
  }

  /** The tags the first n arguments ask for. */
  function TagsTo(args: seq<string>, n: nat): seq<string>
    requires n <= |args|
  {
    if n == 0 then [] else TagsTo(args, n - 1) + TagAt(args, n - 1)
  }

  lemma InlineMeaning(arg: string)
    ensures InlineTag(arg) == if |arg| >= 6 && arg[..6] == "--tag=" then [arg[6..]] else []
  {
    assert |TAG_PREFIX| == 6;
    if |arg| >= 6 { assert TAG_PREFIX <= arg <==> arg[..6] == TAG_PREFIX; }
  }

  lemma {:induction false} NoTagsAfterEnd(args: seq<string>, i: nat, n: nat)
    requires i <= n <= |args| && PlaceOf(args, i).AfterEnd?
    ensures TagsTo(args, n) == TagsTo(args, i) && PlaceOf(args, n).AfterEnd?
    ensures n > i ==> PlaceOf(args, n - 1).AfterEnd?
    decreases n
  {
    if i < n {
      NoTagsAfterEnd(args, i, n - 1);
      assert TagsTo(args, n - 1) + [] == TagsTo(args, n - 1);
    }
  }

  lemma EndIsNoTag(arg: string)
    requires Ends(arg)
    ensures InlineTag(arg) == []
  {
    InlineMeaning(arg);
    assert |arg| == 2;
  }

  lemma TagsStep(args: seq<string>, i: nat)
    requires i < |args| && !Ends(args[i])
    ensures !TakesValue(args[i]) ==> Tags(args[i..]) == Prepend(InlineTag(args[i]), Tags(args[i + 1..]))
    ensures TakesValue(args[i]) && i + 1 == |args| ==> Tags(args[i..]) == None
    ensures TakesValue(args[i]) && i + 1 < |args| ==>
      Tags(args[i..]) == Prepend(TagsOfFlag(args, i), Tags(args[i + 2..]))
  {
    hide Ends, TakesValue, NamesTag, InlineTag;
    assert args[i..][0] == args[i] && args[i..][1..] == args[i + 1..];
    if i + 1 < |args| { assert args[i..][2..] == args[i + 2..] && args[i..][1] == args[i + 1]; }
  }

  function TagsOfFlag(args: seq<string>, i: nat): seq<string>
    requires i + 1 < |args|
  {
    InlineTag(args[i]) + (if NamesTag(args[i]) then [args[i + 1]] else [])
  }

  lemma NoTagsLeft(args: seq<string>)
    ensures Tags(args[|args|..]) == Some([]) && TagsTo(args, |args|) + [] == TagsTo(args, |args|)
  {
  }

  lemma LastLacksValue(args: seq<string>, i: nat)
    requires i < |args| && PlaceOf(args, i).AsOption? && i + 1 == |args| && TakesValue(args[i])
    ensures LacksValue(args)
  {
  }

  /** What is asked for from an option position on. */
  lemma {:induction false} TagsFrom(args: seq<string>, i: nat)
    requires i <= |args| && PlaceOf(args, i).AsOption?
    ensures Tags(args[i..]).None? <==> i < |args| && LacksValue(args)
    ensures Tags(args[i..]).Some? ==> TagsTo(args, i) + Tags(args[i..]).value == TagsTo(args, |args|)
    decreases |args| - i
  {
    hide Ends, TakesValue, NamesTag, InlineTag, Tags, TagsTo, TagsOfFlag, LacksValue, PlaceOf;
    if i == |args| {
      NoTagsLeft(args);
    } else if Ends(args[i]) {
      TagsEnd(args, i);
    } else if !TakesValue(args[i]) {
      TagsStep(args, i);
      OptionTags(args, i);
      TagsFrom(args, i + 1);
      LastTakesNone(args, i);
    } else if i + 1 == |args| {
      TagsStep(args, i);
      LastLacksValue(args, i);
    } else {
      TagsStep(args, i);
      ValueTags(args, i);
      TagsFrom(args, i + 2);
      LastIsValue(args, i);
    }
  }

  lemma LastTakesNone(args: seq<string>, i: nat)
    requires i < |args| && !TakesValue(args[i])
    ensures i + 1 == |args| ==> !LacksValue(args)
  {
  }

  lemma LastIsValue(args: seq<string>, i: nat)
    requires i + 1 < |args| && PlaceOf(args, i).AsOption? && !Ends(args[i]) && TakesValue(args[i])
    ensures i + 2 == |args| ==> !LacksValue(args)
  {
    hide Ends, TakesValue;
    assert PlaceOf(args, i + 1).AsValue?;
  }

  lemma TagsEnd(args: seq<string>, i: nat)
    requires i < |args| && PlaceOf(args, i).AsOption? && Ends(args[i])
    ensures Tags(args[i..]) == Some([]) && !LacksValue(args) && TagsTo(args, i) + [] == TagsTo(args, |args|)
  {
    assert args[i..][0] == args[i];
    EndIsNoTag(args[i]);
    InlineMeaning(args[i]);
    assert PlaceOf(args, i + 1).AfterEnd?;
    assert TagsTo(args, i + 1) == TagsTo(args, i) + [];
    NoTagsAfterEnd(args, i + 1, |args|);
    EndTakesNoValue(args[i]);
  }

  lemma EndTakesNoValue(arg: string)
    requires Ends(arg)
    ensures arg !in {"-t", "--tag", "--platform", "--build-arg", "--network", "-f", "--file"}
  {
    assert arg[1] == '-' && |arg| == 2;
    assert "-t"[1] != '-' && "-f"[1] != '-';
  }

  lemma OptionTags(args: seq<string>, i: nat)
    requires i < |args| && PlaceOf(args, i).AsOption? && !Ends(args[i]) && !TakesValue(args[i])
    ensures PlaceOf(args, i + 1).AsOption?
    ensures forall rest: seq<string> :: TagsTo(args, i) + (InlineTag(args[i]) + rest) == TagsTo(args, i + 1) + rest
  {
    InlineMeaning(args[i]);
    hide Ends, TakesValue, InlineTag;
    assert PlaceOf(args, i + 1).AsOption?;
    assert TagsTo(args, i + 1) == TagsTo(args, i) + InlineTag(args[i]);
  }

  /** The flag itself asks for what it says inline. */
  lemma FlagTag(args: seq<string>, i: nat)
    requires i < |args| && PlaceOf(args, i).AsOption? && !Ends(args[i]) && TakesValue(args[i])
    ensures PlaceOf(args, i + 1).AsValue? && TagsTo(args, i + 1) == TagsTo(args, i) + InlineTag(args[i])
  {
    hide Ends, TakesValue, InlineTag;
    InlineMeaning(args[i]);
  }

  /** Its value is a tag when the flag names one. */
  lemma ValueTag(args: seq<string>, i: nat)
    requires i + 1 < |args| && PlaceOf(args, i + 1).AsValue?
    ensures PlaceOf(args, i + 2).AsOption?
    ensures TagsTo(args, i + 2) == TagsTo(args, i + 1) + (if NamesTag(args[i]) then [args[i + 1]] else [])
  {
    hide Ends, TakesValue, InlineTag;
  }

  lemma ValueTags(args: seq<string>, i: nat)
    requires i + 1 < |args| && PlaceOf(args, i).AsOption? && !Ends(args[i]) && TakesValue(args[i])
    ensures PlaceOf(args, i + 2).AsOption?
    ensures forall rest: seq<string> :: TagsTo(args, i) + (TagsOfFlag(args, i) + rest) == TagsTo(args, i + 2) + rest
  {
    hide Ends, TakesValue, InlineTag, NamesTag, TagsTo, PlaceOf;
    FlagTag(args, i);
    ValueTag(args, i);
    Append(TagsTo(args, i), InlineTag(args[i]), if NamesTag(args[i]) then [args[i + 1]] else []);
  }

  /**
   The tag of a build is the one value asked for in the whole argument list, when every flag has its value and the
   value names a sandbox image by eight hexadecimal digits.
   */
  lemma TagMeaning(args: seq<string>, tag: string)
    ensures BuildTag(args) == Some(tag) <==>
      && args != [] && args[0] == "build" && !LacksValue(args[1..]) && TagsTo(args[1..], |args| - 1) == [tag]
      && |tag| == 31 && tag[..23] == "cloudflare-dev/sandbox:" && forall i :: 23 <= i < 31 ==> IsHex(tag[i])
  {
    ImageMeaning(tag);
    hide ImageTag, Tags, TagsTo, LacksValue;
    if args != [] && args[0] == BUILD {
      var rest := args[1..];
      TagsFrom(rest, 0);
      assert rest[0..] == rest;
      NothingBefore(rest);
      if rest == [] { NoTagsLeft(rest); NothingLacks(); }
      if Tags(rest).Some? && |Tags(rest).value| == 1 { ImageMeaning(Tags(rest).value[0]); }
    }
  }

  lemma NothingLacks()
    ensures !LacksValue([])
  {
  }

  lemma NothingBefore(args: seq<string>)
    ensures forall tags: seq<string> :: TagsTo(args, 0) + tags == tags
  {
  }

  lemma ImageMeaning(s: string)
    ensures ImageTag(s) <==>
      |s| == 31 && s[..23] == "cloudflare-dev/sandbox:" && forall i :: 23 <= i < 31 ==> IsHex(s[i])
  {
    assert |IMAGE_PREFIX| == 23;
    if |s| >= 23 { assert IMAGE_PREFIX <= s <==> s[..23] == IMAGE_PREFIX; }
  }
}
