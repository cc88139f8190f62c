/** The example-set helpers of main.go: turning MNIST images and labels into
    network examples.

    An MNIST image (`gomnist.RawImage`) is a sequence of pixel bytes and a
    label (`gomnist.Label`) one byte; the decoder that produces them is not
    part of this model. main.go's `GenerateDesiredOutput` is the same code as
    the one of operand/neuralnetwork.go and is modelled by
    OperandNetwork.GenerateDesiredOutput. */
module ExampleSet {
  import opened Outcome
  import opened Utilities
  import OperandNetwork

  newtype Byte = b: int | 0 <= b < 256

  /** Every target vector built here has one slot per digit. */
  const Digits := 10

  /** One image: every pixel byte divided by 255, built by appending. */
  function NormalizeImage(img: seq<Byte>): (v: seq<real>)
    ensures |v| == |img|
    ensures forall j :: 0 <= j < |img| ==> v[j] * 255.0 == img[j] as real && 0.0 <= v[j] <= 1.0
  {
    if |img| == 0 then []
    else NormalizeImage(img[..|img| - 1]) + [img[|img| - 1] as real / 255.0]
  }

  /** `normalizeImages`: one normalised vector per image, in order. */
  function NormalizeImages(images: seq<seq<Byte>>): (out: seq<seq<real>>)
    ensures |out| == |images|
    ensures forall i :: 0 <= i < |images| ==> out[i] == NormalizeImage(images[i])
  {
    if |images| == 0 then []
    else NormalizeImages(images[..|images| - 1]) + [NormalizeImage(images[|images| - 1])]
  }

  /** The pixel bytes a normalised vector came from. */
  function Denormalize(v: seq<real>): (img: seq<int>)
    ensures |img| == |v|
  {
    seq(|v|, j requires 0 <= j < |v| => (v[j] * 255.0).Floor)
  }

  /** Normalisation loses nothing: scaling back by 255 recovers every image. */
  lemma NormalizeImagesRoundTrip(images: seq<seq<Byte>>)
    ensures var out := NormalizeImages(images);
            forall i, j :: 0 <= i < |images| && 0 <= j < |images[i]| ==> Denormalize(out[i])[j] == images[i][j] as int
  {
    var out := NormalizeImages(images);
    forall i, j | 0 <= i < |images| && 0 <= j < |images[i]|
      ensures Denormalize(out[i])[j] == images[i][j] as int
    {
      var v := NormalizeImage(images[i]);
      assert out[i] == v;
      assert v[j] * 255.0 == images[i][j] as real;
    }
  }

  /** `normalizeLabels`: each label as an `int`, built by appending. */
  function NormalizeLabels(labels: seq<Byte>): (out: seq<int>)
    ensures |out| == |labels|
    ensures forall i :: 0 <= i < |labels| ==> out[i] == labels[i] as int && 0 <= out[i] < 256
  {
    if |labels| == 0 then []
    else NormalizeLabels(labels[..|labels| - 1]) + [labels[|labels| - 1] as int]
  }

  /** The position of the first 1 in a target vector, or -1 when it has none:
      the digit a one-hot target stands for. */
  function DigitOf(target: seq<real>): (d: int)
    ensures -1 <= d < |target|
    ensures d >= 0 ==> target[d] == 1.0 && forall i :: 0 <= i < d ==> target[i] != 1.0
    ensures d == -1 ==> forall i :: 0 <= i < |target| ==> target[i] != 1.0
  {
    if |target| == 0 then -1
    else if target[0] == 1.0 then 0
    else
      var d := DigitOf(target[1..]);
      if d == -1 then -1 else d + 1
  }

  /** The target for label n can be read back: it is n when n is a valid
      index of the l slots, and no slot holds a 1 otherwise. */
  lemma DesiredOutputDecodes(n: int, l: int)
    ensures DigitOf(OperandNetwork.GenerateDesiredOutput(n, l)) == if 0 <= n < l then n else -1
  {
    var t := OperandNetwork.GenerateDesiredOutput(n, l);
    var d := DigitOf(t);
    if d >= 0 {
      assert t[d] == 1.0;
    }
    if 0 <= n < l {
      assert t[n] == 1.0;
    }
  }

  /** `createExampleSet`: example i pairs normalised image i with the
      one-hot target of label i. A length mismatch is only reported on the
      console; with fewer labels than images the read `output[i]` runs past
      the labels and panics, and extra labels are ignored. */
  function CreateExampleSet(images: seq<seq<Byte>>, labels: seq<Byte>): (r: Result<seq<Example>>)
    ensures r.Ok? <==> |labels| >= |images|
    ensures r.Fail? ==> r.failure == IndexOutOfRange
    ensures r.Ok? ==>
              && |r.value| == |images|
              && forall i :: 0 <= i < |images| ==>
                               && r.value[i].input == NormalizeImage(images[i])
                               && r.value[i].output == OperandNetwork.GenerateDesiredOutput(labels[i] as int, Digits)
  {
    var input := NormalizeImages(images);
    var output := NormalizeLabels(labels);
    if |output| < |input| then Fail(IndexOutOfRange)
    else Ok(seq(|input|, i requires 0 <= i < |input| => Example(input[i], OperandNetwork.GenerateDesiredOutput(output[i], Digits))))
  }

  /** The example set keeps all the information of its images and of the
      digit labels: the pixels come back by scaling, a label below 10 comes
      back as the position of the 1 in its target, and a larger label leaves
      an all-zero target. */
  lemma ExampleSetRoundTrip(images: seq<seq<Byte>>, labels: seq<Byte>)
    requires |labels| >= |images|
    ensures var es := CreateExampleSet(images, labels).value;
            forall i :: 0 <= i < |images| ==>
                          && |es[i].input| == |images[i]|
                          && (forall j :: 0 <= j < |images[i]| ==> Denormalize(es[i].input)[j] == images[i][j] as int)
                          && |es[i].output| == Digits
                          && DigitOf(es[i].output) == (if labels[i] < 10 then labels[i] as int else -1)
  {
    var es := CreateExampleSet(images, labels).value;
    NormalizeImagesRoundTrip(images);
    forall i | 0 <= i < |images|
      ensures DigitOf(es[i].output) == (if labels[i] < 10 then labels[i] as int else -1)
    {
      DesiredOutputDecodes(labels[i] as int, Digits);
    }
  }
}
