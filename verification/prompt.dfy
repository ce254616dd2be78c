/**
 The instruction text sent to the chat model: a fixed opening line, the
 feature name, the specification text verbatim, an optional block of image
 captions, and a closing line naming the six fields every test-case object
 must carry.
 */
module Prompt {
  import opened Strings

  /** The fixed text pieces a prompt is built from. */
  datatype Template = Template(
    preamble: string,
    featureLabel: string,
    specLabel: string,
    imageHeading: string,
    fieldDirective: string)

  /**
   The pieces the generator uses. The closing line names the six fields every
   object must carry, steps and tags as arrays.
   */
  const Testmo: Template := Template(
    "Generate test cases in JSON array format for Testmo import.\n",
    "Feature: ",
    "Specification:\n",
    "\nImage Descriptions:\n",
    "\nEach object should include: " + "title, preconditions, severity, steps (array), expected, tags (array).")

  /** The closing line and the image heading already differ in their second character. */
  predicate Separable(t: Template) {
    |t.fieldDirective| > 1 && |t.imageHeading| > 1 && t.fieldDirective[1] != t.imageHeading[1]
  }

  lemma TestmoSeparable()
    ensures Separable(Testmo)
  {
  }

  /** The generator's prompts open with the Testmo request line and close with the six-field directive. */
  lemma TestmoFraming(feature: string, spec: string, captions: seq<string>)
    ensures IsPrefix("Generate test cases in JSON array format for Testmo import.\n", Build(Testmo, feature, spec, captions))
    ensures OccursAt("Feature: " + feature, Build(Testmo, feature, spec, captions), 60)
    ensures IsSuffix("\nEach object should include: " + "title, preconditions, severity, steps (array), expected, tags (array).",
      Build(Testmo, feature, spec, captions))
  {
    var p := Build(Testmo, feature, spec, captions);
    assert IsPrefix(Testmo.preamble, p) && IsSuffix(Testmo.fieldDirective, p);
    assert OccursAt(Testmo.featureLabel + feature, p, |Testmo.preamble|);
  }

  /** The first three lines: preamble, feature line, and the specification. */
  function Opening(t: Template, feature: string, spec: string): string {
    t.preamble + (t.featureLabel + feature) + ("\n" + t.specLabel) + spec + "\n"
  }

  /** Where the specification text starts in the prompt. */
  function SpecStart(t: Template, feature: string): nat {
    |t.preamble| + |t.featureLabel| + |feature| + 1 + |t.specLabel|
  }

  /** One caption line of the image block. */
  function Bullet(caption: string): string {
    "- " + caption + "\n"
  }

  /** The caption lines in order, as the loop appends them one by one. */
  function Bullets(captions: seq<string>): string
  {
    if |captions| == 0 then ""
    else Bullets(captions[..|captions| - 1]) + Bullet(captions[|captions| - 1])
  }

  /** The image block: absent for no captions, else a heading and one line per caption. */
  function ImageBlock(t: Template, captions: seq<string>): string {
    if |captions| == 0 then "" else t.imageHeading + Bullets(captions)
  }

  /** The whole prompt for a feature, its specification and the image captions. */
  function Build(t: Template, feature: string, spec: string, captions: seq<string>): (p: string)
    ensures IsPrefix(t.preamble, p)
    ensures OccursAt(t.featureLabel + feature, p, |t.preamble|)
    ensures OccursAt(spec, p, SpecStart(t, feature))
    ensures OccursAt(ImageBlock(t, captions), p, |Opening(t, feature, spec)|)
    ensures IsSuffix(t.fieldDirective, p)
  {
    Layout(t.preamble, t.featureLabel + feature, "\n" + t.specLabel, spec, "\n", ImageBlock(t, captions), t.fieldDirective);
    Opening(t, feature, spec) + ImageBlock(t, captions) + t.fieldDirective
  }

  /** Where each piece of a seven-piece concatenation sits. */
  lemma Layout(a: string, b: string, c: string, d: string, e: string, f: string, g: string)
    ensures IsPrefix(a, a + b + c + d + e + f + g)
    ensures OccursAt(b, a + b + c + d + e + f + g, |a|)
    ensures OccursAt(d, a + b + c + d + e + f + g, |a| + |b| + |c|)
    ensures OccursAt(f, a + b + c + d + e + f + g, |a| + |b| + |c| + |d| + |e|)
    ensures IsSuffix(g, a + b + c + d + e + f + g)
  {
    var s := a + b + c + d + e + f + g;
    assert s[..|a|] == a;
    assert s[|a|..|a| + |b|] == b;
    assert s[|a| + |b| + |c|..|a| + |b| + |c| + |d|] == d;
    assert s[|a| + |b| + |c| + |d| + |e|..|a| + |b| + |c| + |d| + |e| + |f|] == f;
    assert s[|s| - |g|..] == g;
  }

  /**
   The prompt assembled the way the generator does it: three formatted lines,
   then, when there are captions, the heading and one appended line per caption,
   then the closing directive.
   */
  method Assemble(t: Template, feature: string, spec: string, captions: seq<string>) returns (prompt: string)
    ensures prompt == Build(t, feature, spec, captions)
  {
    prompt := Opening(t, feature, spec);
    if |captions| > 0 {
      prompt := prompt + t.imageHeading;
      ghost var head := prompt;
      var i := 0;
      while i < |captions|
        invariant 0 <= i <= |captions|
        invariant prompt == head + Bullets(captions[..i])
      {
        BulletsSnoc(captions, i);
        Assoc(head, Bullets(captions[..i]), Bullet(captions[i]));
        prompt := prompt + Bullet(captions[i]);
        i := i + 1;
      }
      assert captions[..|captions|] == captions;
      Assoc(Opening(t, feature, spec), t.imageHeading, Bullets(captions));
    }
    prompt := prompt + t.fieldDirective;
    BuildPieces(t, feature, spec, captions);
  }

  /** `Build` without an image block, and with one. */
  lemma BuildPieces(t: Template, feature: string, spec: string, captions: seq<string>)
    ensures |captions| == 0 ==> Build(t, feature, spec, captions) == Opening(t, feature, spec) + t.fieldDirective
    ensures |captions| > 0 ==>
      Build(t, feature, spec, captions) == Opening(t, feature, spec) + (t.imageHeading + Bullets(captions)) + t.fieldDirective
  {
    if |captions| == 0 {
      assert Opening(t, feature, spec) + ImageBlock(t, captions) == Opening(t, feature, spec);
    }
  }

  /** Extending the caption prefix by one adds that caption's line. */
  lemma BulletsSnoc(captions: seq<string>, i: nat)
    requires i < |captions|
    ensures Bullets(captions[..i + 1]) == Bullets(captions[..i]) + Bullet(captions[i])
  {
    assert captions[..i + 1][..i] == captions[..i];
  }

  lemma Assoc(a: string, b: string, c: string)
    ensures a + b + c == a + (b + c)
  {
  }

  /** The prompt has an image block right after the specification. */
  predicate HasImageBlock(t: Template, p: string, feature: string, spec: string) {
    OccursAt(t.imageHeading, p, |Opening(t, feature, spec)|)
  }

  /** The image block is there exactly when the caption list is non-empty. */
  lemma ImageBlockIffCaptions(t: Template, feature: string, spec: string, captions: seq<string>)
    requires Separable(t)
    ensures HasImageBlock(t, Build(t, feature, spec, captions), feature, spec) <==> |captions| > 0
  {
    var o := Opening(t, feature, spec);
    BuildPieces(t, feature, spec, captions);
    if |captions| == 0 {
      NotAtJoint(o, t.fieldDirective, t.imageHeading);
    } else {
      OccursHead(t.imageHeading, Bullets(captions), Build(t, feature, spec, captions), |o|);
    }
  }

  /** The first part of an occurring concatenation occurs at the same place. */
  lemma OccursHead(a: string, b: string, s: string, at: nat)
    requires OccursAt(a + b, s, at)
    ensures OccursAt(a, s, at)
  {
    assert s[at..at + |a|] == (a + b)[..|a|];
  }

  /** A text whose second character differs from the second character of `d` does not occur where `d` starts. */
  lemma NotAtJoint(o: string, d: string, h: string)
    requires |d| > 1 && |h| > 1 && d[1] != h[1]
    ensures !OccursAt(h, o + d, |o|)
  {
    if |o| + |h| <= |o + d| {
      assert (o + d)[|o|..|o| + |h|][1] == d[1];
    }
  }

  /** The caption lines of a concatenation are the lines of each part in turn. */
  lemma {:induction false} BulletsAppend(a: seq<string>, b: seq<string>)
    ensures Bullets(a + b) == Bullets(a) + Bullets(b)
    decreases |b|
  {
    if |b| > 0 {
      var b' := b[..|b| - 1];
      assert (a + b)[..|a + b| - 1] == a + b';
      BulletsAppend(a, b');
    } else {
      assert a + b == a;
    }
  }

  /** Every caption appears as its own `- caption` line, after those before it and before those after it. */
  lemma CaptionsInOrder(captions: seq<string>, i: nat)
    requires i < |captions|
    ensures Bullets(captions) == Bullets(captions[..i]) + Bullet(captions[i]) + Bullets(captions[i + 1..])
  {
    assert captions == captions[..i + 1] + captions[i + 1..];
    BulletsAppend(captions[..i + 1], captions[i + 1..]);
    BulletsSnoc(captions, i);
  }

  /** Reads the specification back out of a prompt, given the feature name and captions. */
  function RecoverSpec(t: Template, p: string, feature: string, captions: seq<string>): string {
    var tail := |ImageBlock(t, captions)| + |t.fieldDirective| + 1;
    if SpecStart(t, feature) + tail <= |p| then p[SpecStart(t, feature)..|p| - tail] else ""
  }

  /** The specification text is embedded whole: it can be read back exactly. */
  lemma RecoverSpecRoundTrip(t: Template, feature: string, spec: string, captions: seq<string>)
    ensures RecoverSpec(t, Build(t, feature, spec, captions), feature, captions) == spec
  {
    var p := Build(t, feature, spec, captions);
    assert |p| == SpecStart(t, feature) + |spec| + 1 + |ImageBlock(t, captions)| + |t.fieldDirective|;
  }

  /** Two prompts for the same feature and captions differ when the specifications do. */
  lemma BuildInjectiveInSpec(t: Template, feature: string, spec1: string, spec2: string, captions: seq<string>)
    requires Build(t, feature, spec1, captions) == Build(t, feature, spec2, captions)
    ensures spec1 == spec2
  {
    RecoverSpecRoundTrip(t, feature, spec1, captions);
    RecoverSpecRoundTrip(t, feature, spec2, captions);
  }
}
