/** The images that a snapshot was built with, and how they are displayed. */
module SnapshotImages {

  datatype Images = Images(bitcoinNode: string, stacksNode: string, stacksSigner: string)

  const DEFAULT: Images := Images(
    "bitcoin/bitcoin:31.1@sha256:da25cedc66b1daefff9f412ee196c901a899c3fa68a33b20849c3e08b5c40d63",
    "ghcr.io/stacks-network/stacks-core:4.0.5-alpine",
    "ghcr.io/stacks-network/stacks-signer:4.0.5-alpine")

  function Line(name: string, image: string): string {
    name + " = \"" + image + "\""
  }

  function ThreeLines(a: string, b: string, c: string): string {
    a + "\n" + (b + "\n" + (c + "\n"))
  }

  function Display(images: Images): string {
    ThreeLines(Line("bitcoin_node_image_url", images.bitcoinNode),
               Line("stacks_node_image_url", images.stacksNode),
               Line("stacks_signer_image_url", images.stacksSigner))
  }

  // The texts around the three urls.

  const START: string := "bitcoin_node_image_url = \""
  const TO_NODE: string := "\"" + "\n" + "stacks_node_image_url = \""
  const TO_SIGNER: string := "\"" + "\n" + "stacks_signer_image_url = \""
  const END: string := "\"" + "\n"

  /** The urls with what stands between them. */
  function Urls(images: Images): string {
    images.bitcoinNode + TO_NODE + images.stacksNode + TO_SIGNER + images.stacksSigner
  }

  lemma DisplayIsUrls(images: Images)
    ensures Display(images) == START + Urls(images) + END
  {
    var b, n, s := images.bitcoinNode, images.stacksNode, images.stacksSigner;
    assert "bitcoin_node_image_url" + " = \"" == START;
    assert Line("bitcoin_node_image_url", b) == START + b + "\"";
    assert TO_NODE == "\"" + "\n" + ("stacks_node_image_url" + " = \"");
    assert TO_SIGNER == "\"" + "\n" + ("stacks_signer_image_url" + " = \"");
    Pasted(START, b, "stacks_node_image_url" + " = \"", n, "stacks_signer_image_url" + " = \"", s);
  }

  lemma Pasted(start: string, b: string, node: string, n: string, signer: string, s: string)
    ensures (start + b + "\"") + "\n" + ((node + n + "\"") + "\n" + ((signer + s + "\"") + "\n"))
         == start + (b + ("\"" + "\n" + node) + n + ("\"" + "\n" + signer) + s) + ("\"" + "\n")
  {
  }

  lemma SameUrls(images: Images, other: Images)
    ensures Display(images) == Display(other) <==> Urls(images) == Urls(other)
  {
    DisplayIsUrls(images);
    DisplayIsUrls(other);
    Unwrapped(START, Urls(images), END);
    Unwrapped(START, Urls(other), END);
  }

  lemma Unwrapped(start: string, text: string, end: string)
    ensures (start + text + end)[|start|..|start + text + end| - |end|] == text
  {
  }

  /** `part` stands at position `k` of the text. */
  predicate StandsAt(text: string, part: string, k: int) {
    0 <= k && k + |part| <= |text| && text[k..k + |part|] == part
  }

  /** `part` stands in `before + part + after` not only where it was put. */
  predicate StandsElsewhere(before: string, part: string, after: string) {
    exists k :: 0 <= k <= |before + after| && k != |before| && StandsAt(before + part + after, part, k)
  }

  /** What separates two urls also stands elsewhere across them. */
  predicate Ambiguous(images: Images) {
    || StandsElsewhere(images.bitcoinNode, TO_NODE, images.stacksNode)
    || StandsElsewhere(images.stacksNode, TO_SIGNER, images.stacksSigner)
  }

  /** Cut at the other place, the same text gives other urls. */
  lemma CutElsewhere(before: string, part: string, after: string) returns (before': string, after': string)
    requires StandsElsewhere(before, part, after)
    ensures before' + part + after' == before + part + after && before' != before
  {
    var text := before + part + after;
    var k :| 0 <= k <= |before + after| && k != |before| && StandsAt(text, part, k);
    before', after' := text[..k], text[k + |part|..];
    assert text == text[..k] + text[k..k + |part|] + text[k + |part|..];
  }

  lemma AmbiguousHasOther(images: Images) returns (other: Images)
    requires Ambiguous(images)
    ensures other != images && Display(other) == Display(images)
  {
    var b, n, s := images.bitcoinNode, images.stacksNode, images.stacksSigner;
    if StandsElsewhere(b, TO_NODE, n) {
      var b', n' := CutElsewhere(b, TO_NODE, n);
      other := Images(b', n', s);
    } else {
      var n', s' := CutElsewhere(n, TO_SIGNER, s);
      other := Images(b, n', s');
      Rest(b + TO_NODE, n, TO_SIGNER, s);
      Rest(b + TO_NODE, n', TO_SIGNER, s');
    }
    SameUrls(images, other);
  }

  lemma Rest(front: string, n: string, part: string, s: string)
    ensures front + n + part + s == front + (n + part + s)
  {
  }

  /** In two readings of one text, the separator of the longer first url stands elsewhere in the other reading: across
      the first two urls, or else the second separator does across the last two. */
  lemma OtherIsAmbiguous(b: string, n: string, s: string, b': string, n': string, s': string, node: string,
      signer: string)
    requires b + node + n + signer + s == b' + node + n' + signer + s'
    requires (b, n, s) != (b', n', s')
    ensures StandsElsewhere(b, node, n) || StandsElsewhere(n, signer, s)
  {
    if |b'| != |b| && |b'| <= |b| + |n| {
      SeparatorAt(b', node, n' + signer + s');
      Rest4(b, node, n, signer, s);
      Rest4(b', node, n', signer, s');
      StandsWithin(b + node + n, signer + s, node, |b'|);
    } else {
      Rest3(b, node, n, signer, s);
      Rest3(b', node, n', signer, s');
      if |b'| == |b| {
        SameFirst(b + node, n + signer + s, b' + node, n' + signer + s');
        SameFirst(b, node, b', node);
        LastTwo(n, s, n', s', signer);
      }
      SeparatorAt(b' + node + n', signer, s');
      StandsAfter(b + node, n + signer + s, signer, |b' + node + n'| - |b + node|);
    }
  }

  lemma SeparatorAt(before: string, part: string, after: string)
    ensures StandsAt(before + part + after, part, |before|)
  {
  }

  lemma SameFirst(a: string, x: string, b: string, y: string)
    requires a + x == b + y
    ensures |a| == |b| ==> a == b && x == y
  {
    if |a| == |b| {
      assert a == (a + x)[..|a|] && x == (a + x)[|a|..];
      assert b == (b + y)[..|b|] && y == (b + y)[|b|..];
    }
  }

  lemma LastTwo(n: string, s: string, n': string, s': string, signer: string)
    requires n + signer + s == n' + signer + s'
    ensures |n| == |n'| ==> n == n' && s == s'
  {
    SameFirst(n + signer, s, n' + signer, s');
    if |n| == |n'| {
      assert n == (n + signer)[..|n|] && n' == (n' + signer)[..|n|];
    }
  }

  lemma Rest3(b: string, node: string, n: string, signer: string, s: string)
    ensures b + node + n + signer + s == (b + node) + (n + signer + s)
  {
  }

  lemma Rest4(b: string, node: string, n: string, signer: string, s: string)
    ensures b + node + n + signer + s == (b + node + n) + (signer + s) == b + node + (n + signer + s)
  {
  }

  lemma StandsWithin(text: string, rest: string, part: string, k: int)
    requires StandsAt(text + rest, part, k) && k + |part| <= |text|
    ensures StandsAt(text, part, k)
  {
    assert (text + rest)[k..k + |part|] == text[k..k + |part|];
  }

  lemma StandsAfter(front: string, text: string, part: string, k: int)
    requires StandsAt(front + text, part, |front| + k) && k >= 0
    ensures StandsAt(text, part, k)
  {
    assert (front + text)[|front| + k..|front| + k + |part|] == text[k..k + |part|];
  }

  /** Other images display as these exactly when these are ambiguous. */
  lemma SharedIff(images: Images)
    ensures (exists other :: other != images && Display(other) == Display(images)) <==> Ambiguous(images)
  {
    if Ambiguous(images) {
      var other := AmbiguousHasOther(images);
    }
    if other :| other != images && Display(other) == Display(images) {
      SameUrls(images, other);
      OtherIsAmbiguous(images.bitcoinNode, images.stacksNode, images.stacksSigner,
                       other.bitcoinNode, other.stacksNode, other.stacksSigner, TO_NODE, TO_SIGNER);
    }
  }

  /** Urls without line breaks are not ambiguous. */
  lemma SingleLineIsUnambiguous(images: Images)
    requires '\n' !in images.bitcoinNode && '\n' !in images.stacksNode && '\n' !in images.stacksSigner
    ensures !Ambiguous(images)
  {
    OneBreak(images.bitcoinNode, TO_NODE, images.stacksNode);
    OneBreak(images.stacksNode, TO_SIGNER, images.stacksSigner);
  }

  lemma OneBreak(before: string, part: string, after: string)
    requires '\n' !in before && '\n' !in after && |part| > 1 && part[1] == '\n'
    requires forall i :: 2 <= i < |part| ==> part[i] != '\n'
    requires part[0] != '\n'
    ensures !StandsElsewhere(before, part, after)
  {
    var text := before + part + after;
    forall k | StandsAt(text, part, k) ensures k == |before| {
      assert text[k..k + |part|][1] == text[k + 1];
      CharacterAt(before, part, after, k + 1);
    }
  }

  lemma CharacterAt(before: string, part: string, after: string, j: nat)
    requires j < |before + part + after|
    ensures (before + part + after)[j] ==
            if j < |before| then before[j]
            else if j < |before + part| then part[j - |before|]
            else after[j - |before + part|]
  {
  }
}
