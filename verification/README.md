# Operand — a Dafny model of its neural networks and statistics

Operand is a small Go machine-learning toolkit. This project models its core:

- **`nn`** holds two networks.
  - **nn/Network.go** has the `ConnectedNetwork`: a fully connected network of any depth. It has pluggable activation functions, momentum and back-propagation of deltas.
  - **nn/network.go** has the `Network`: a three-layer network (input, hidden, output). Its input and hidden layers each carry a bias neuron fixed at 1.0. Its activation is the logistic sigmoid.
  - **nn/ActivationFunctions.go** holds the activation functions and their derivatives.
  - **nn/Utilities.go** holds `GenerateExample` and the half-squared error.
- **`operand`** holds `NeuralNet`, in operand/neuralnetwork.go. It is a network of any depth with per-neuron biases, sigmoid layers and a softmax-based error. Its back-propagation is unfinished in the code.
- **main.go** turns MNIST images and labels into training examples.
- **`statistics`**, in statistics/SingleVariable.go, computes the descriptive statistics of one variable: sum, mean, frequency, mode, minimum, maximum, range, percentiles, median and inter-quartile range.

Each Go file is one Dafny module. nn/Network.go and nn/network.go both declare `CreateVector`, `Example` and `InitializeNewNetwork`. nn/network.go also re-declares `SquaredError`, first declared in nn/Utilities.go, and `Sigmoid`, first declared in nn/ActivationFunctions.go. The two network files therefore become two modules: `DeepNetwork` for nn/Network.go and `BiasNetwork` for nn/network.go. Four helper modules sit underneath:

- `Outcome`: a panic becomes a `Fail` value that carries the reason, and a float division by zero becomes `NaN`.
- `Vectors`: sums, dot products and squared differences.
- `Sorting`: `sort.Float64s`, specified as the unique sorted permutation.
- `Passes`: the loop that every training and evaluation function runs over its examples, once per epoch.

**Code that appears twice is modelled once:**

- `statistics.Sum` (statistics/SingleVariable.go:9-15) is the left fold `Vectors.Sum`. Its properties are SingleVariable.SumIgnoresOrder, Vectors.SumBounds and Vectors.SumAppend.
- main.go's `GenerateDesiredOutput` (main.go:166-176) has the same text as the one in operand/neuralnetwork.go:52-62. Both are modelled by OperandNetwork.GenerateDesiredOutput, which ExampleSet.CreateExampleSet calls.

**How the model maps Go to Dafny:**

- Numbers are mathematical reals and sizes are naturals.
- Randomness and `math.Exp`/`math.Tanh` are parameters.
- A method that updates its receiver (`*Network`, `*ConnectedNetwork`) returns the updated record next to its result.
- A function that sorts its argument in place returns the sorted slice next to its value.

## Model

| member | source | states |
|---|---|---|
| ActivationFunctions.Sigmoid | nn/ActivationFunctions.go:6-8 | the logistic value lies strictly between 0 and 1, and multiplied by 1 + e^-x it gives 1 |
| ActivationFunctions.DSigmoid | nn/ActivationFunctions.go:11-13 | the derivative, written in terms of a neuron's output, never exceeds 1/4 and is zero exactly at outputs 0 and 1 |
| ActivationFunctions.Relu | nn/ActivationFunctions.go:16-18 | the rectifier is non-negative, at least its input, and either 0 or the input |
| ActivationFunctions.DRelu | nn/ActivationFunctions.go:21-26 | the slope is 1 exactly for positive inputs and 0 exactly for all others |
| ActivationFunctions.DTanH | nn/ActivationFunctions.go:29-36 | the tanh derivative is 1 minus the square of tanh, hence at most 1 |
| ActivationFunctions.SigmoidDerivativeFromOutput | nn/ActivationFunctions.go:6-13 | DSigmoid applied to a sigmoid output is e^-x / (1 + e^-x)^2, the true derivative of the logistic function |
| ActivationFunctions.ReluIdempotent | nn/ActivationFunctions.go:16-18 | rectifying twice is rectifying once, and the rectifier is max(0, x) |
| ActivationFunctions.ReluIsSlopeTimesInput | nn/ActivationFunctions.go:16-26 | the rectifier is its slope times its input |
| Utilities.GenerateExample | nn/Utilities.go:6-11 | the example holds exactly the given input and output |
| Utilities.SquaredError | nn/Utilities.go:14-24 | succeeds exactly when the lengths agree and panics with a length mismatch otherwise; the value is half the sum of squared differences and is never negative |
| Utilities.SquaredErrorProperties | nn/Utilities.go:14-24 | the error is symmetric in its two vectors, and zero for identical vectors and for empty ones |
| Utilities.HalfSquareTermsIsSquaredError | nn/Network.go:147-153 | the per-term error loop of `BackPropagate` adds up to the same value as `SquaredError` |
| Outcome.Quotient | statistics/SingleVariable.go:18-20 | a float quotient is NaN exactly when it divides by zero (then the numerator is 0); otherwise it times the divisor is the numerator, and it keeps the numerator's sign |
| Vectors.SquareSumNonNegative | nn/Utilities.go:19-22 | a sum of squared differences is never negative |
| Vectors.SquareSumSymmetric | nn/Utilities.go:19-22 | a sum of squared differences does not depend on which vector is subtracted |
| Vectors.SquareSumOfEqual | nn/Utilities.go:19-22 | a vector differs from itself by a zero sum of squares |
| Vectors.HalfSquareTermsIsHalfSquareSum | nn/network.go:170-176 | adding halves of squares term by term equals half of the summed squares |
| Vectors.SumBounds | statistics/SingleVariable.go:9-15 | if every value lies in [lo, hi], the sum of n values lies in [n·lo, n·hi] |
| Passes.Pass | nn/Network.go:162-166 | one pass over the examples either fails or yields a network that keeps the step's invariant and a non-negative total error |
| Passes.PassOutcome | nn/Network.go:162-166 | a pass succeeds exactly when every example fits; a failed pass fails with the failure of the first example that does not fit |
| Passes.PassCost | nn/network.go:196-200 | a successful pass's error is the sum, over the examples, of each example's own error |
| Passes.PassFailureSticks | nn/Network.go:164-166 | once a prefix of the examples fails, the examples after it change nothing |
| Passes.RunPass | nn/network.go:184-188 | the loop over the examples computes exactly the recursive pass |
| Passes.Accuracy | nn/Network.go:167 | the accuracy (1 − mean error) · scale is NaN exactly when there are no examples; otherwise it satisfies accuracy · count = scale · (count − error), and it never exceeds the scale |
| Passes.Train | nn/Network.go:158-174 | training yields one accuracy per epoch, each a number exactly when there are examples and none above the scale, and a network that keeps the step's invariant |
| Passes.TrainOutcome | nn/Network.go:162-166 | training succeeds exactly when there are no epochs or every example fits; otherwise it fails with the first misfit's failure |
| Passes.TrainFailureSticks | nn/Network.go:162-172 | a failed epoch ends training: later epochs change nothing |
| Passes.RunTraining | nn/network.go:179-192 | the nested epoch-and-example loop computes exactly the recursive training |
| BiasNetwork.GetRandomValue | nn/network.go:9-11 | a uniform draw in [0, 1) maps into [a, b) |
| BiasNetwork.CreateMatrix | nn/network.go:13-19 | an i×j matrix of zeros |
| BiasNetwork.CreateVector | nn/network.go:21-27 | i copies of the fill value |
| BiasNetwork.Sigmoid | nn/network.go:29-32 | with the derivative flag it is ActivationFunctions.DSigmoid; without it, the logistic function, strictly between 0 and 1 |
| BiasNetwork.SquaredError | nn/network.go:34-42 | panics with a length mismatch exactly when the lengths differ; otherwise half the sum of squared differences, never negative |
| BiasNetwork.InitializeNewNetwork | nn/network.go:56-93 | the network is well formed: one extra bias neuron in the input and hidden layers; all activations 1; the weight at each position is `GetRandomValue(-1, 1)` applied to that position's draw; changes zero; the settings kept |
| BiasNetwork.InitialWeightsInRange | nn/network.go:79-89 | with draws in [0, 1), every initial weight lies in [−1, 1) |
| BiasNetwork.HiddenLayer | nn/network.go:104-112 | each non-bias hidden neuron is the sigmoid of the weighted sum of the inputs, and the bias neuron keeps its value; ForwardPropagate and ForwardIsPredict build on it |
| BiasNetwork.OutputLayer | nn/network.go:114-124 | each output neuron is the sigmoid of the weighted sum of the hidden layer, strictly between 0 and 1 |
| BiasNetwork.ForwardPropagate | nn/network.go:95-125 | panics exactly when the input size is not NInputs − 1; otherwise only the activations change: the input is stored before the bias 1.0, the hidden and output neurons get their sigmoids, and the result is the output layer |
| BiasNetwork.ForwardIsPredict | nn/network.go:95-125 | what forward propagation returns depends only on the weights and the input: it is the pure prediction |
| BiasNetwork.OutputDeltas | nn/network.go:134-137 | each output delta is the sigmoid slope at the output times the target error; UpdatedWeights carries it into every output weight |
| BiasNetwork.HiddenDeltas | nn/network.go:139-148 | each hidden delta is the sigmoid slope at the hidden neuron times the output deltas weighted by its outgoing weights; BiasDeltaIsZero and BiasColumnFrozen show that the bias neuron's delta is zero and freezes its column |
| BiasNetwork.UpdateWeights | nn/network.go:152-166 | every weight moves by rate · delta · activation plus momentum · previous change; UpdatedWeights states the result for both layers, and MomentumAtRest shows a zero delta and zero change keep the weight |
| BiasNetwork.NewChanges | nn/network.go:154-164 | each recorded change is delta · activation; UpdatedWeights states it for every stored change |
| BiasNetwork.BiasDeltaIsZero | nn/network.go:139-148 | the hidden bias neuron's delta is always zero, because its activation is 1 and the slope at 1 is 0 |
| BiasNetwork.UpdateOutputLayer | nn/network.go:152-158 | updates only the output weights and changes, by the momentum rule, and leaves the input weights, and so the bias column, alone |
| BiasNetwork.UpdateInputLayer | nn/network.go:160-166 | updates only the input weights and changes, by the momentum rule; with a zero bias delta, the weights into the hidden bias neuron stay put |
| BiasNetwork.MomentumAtRest | nn/network.go:155 | a zero delta with no previous change leaves a weight unchanged |
| BiasNetwork.BiasColumnFrozen | nn/network.go:160-166 | a zero bias delta gives zero changes and unchanged weights in the hidden bias neuron's column |
| BiasNetwork.Updated | nn/network.go:132-166 | a back-propagation update keeps the network well formed, keeps its layout and activations, and never moves the weights into the hidden bias neuron |
| BiasNetwork.UpdatedWeights | nn/network.go:150-166 | after the update every output and input weight equals its momentum-rule value computed from the deltas, and every change is delta · activation |
| BiasNetwork.BackPropagate | nn/network.go:127-177 | panics exactly when the target size is not NOutputs; otherwise it performs the update and returns half the squared error of the targets against the output activations, which is never negative |
| BiasNetwork.TrainStep | nn/network.go:185-188 | one training example succeeds exactly when both its sizes fit; it fails with the input-size panic first, then the output-size panic; the network stays well formed |
| BiasNetwork.StepKeepsBias | nn/network.go:185-188 | a training step never changes the weights into the hidden bias neuron |
| BiasNetwork.TrainStepLaws | nn/network.go:183-190 | the training step keeps the network well formed with its bias column, and succeeds or fails exactly according to the example's sizes |
| BiasNetwork.TrainNetwork | nn/network.go:179-192 | training gives one accuracy 1 − mean error per epoch; it succeeds exactly when there are no epochs or all examples fit, and otherwise fails at the first misfit; each accuracy is a number exactly when there are examples and is at most 1; bias weights are untouched |
| BiasNetwork.BiasEntries | nn/network.go:160-166 | equal bias columns mean equal weights into the hidden bias neuron, entry by entry |
| BiasNetwork.EvalStep | nn/network.go:198-200 | evaluating one example never changes the weights or changes; it fails with the input-size panic, then the length panic of `SquaredError`; its error is the example's prediction error, never negative |
| BiasNetwork.ErrorOfWeights | nn/network.go:198-200 | an example's error depends only on the weights |
| BiasNetwork.EvalStepLaws | nn/network.go:194-204 | evaluation keeps the weights, decides success by the example's sizes, and costs each example's own error |
| BiasNetwork.EvaluateNetwork | nn/network.go:194-204 | evaluation succeeds exactly when all examples fit, failing at the first misfit; its result is the total prediction error divided by the count (NaN for no examples), never negative |
| BiasNetwork.EvaluationRepeatable | nn/network.go:194-204 | evaluating again on the network evaluation returned gives the same total error |
| BiasNetwork.ExactPredictionsHaveNoError | nn/network.go:194-204 | a network that predicts every target exactly has total error 0 |
| DeepNetwork.CreateVector | nn/Network.go:27-33 | the vector has i entries, all zero, whatever the fill value |
| DeepNetwork.CreateVectorIgnoresFill | nn/Network.go:27-33 | the fill value has no effect on the vector |
| DeepNetwork.InitializeNewNetwork | nn/Network.go:36-77 | an empty structure panics on `structure[0]`; otherwise the network is well formed for its structure, the weight at each position [l][j][k] is the draw for that position; activations, deltas and changes are zero; and the settings are kept |
| DeepNetwork.InitialWeightsInRange | nn/Network.go:62-75 | with draws in [0, 1), every initial weight lies in [0, 1) |
| DeepNetwork.Layer | nn/Network.go:92-98 | neuron j of the next layer is the activation function of the dot product of the layer below with its weights; Feed applies it layer by layer |
| DeepNetwork.Feed | nn/Network.go:91-101 | each layer's activations are the activation function of the dot products of the layer below with each neuron's weights |
| DeepNetwork.ForwardPropagateInput | nn/Network.go:80-104 | panics exactly when the input size is not structure[0]; otherwise only the activations change, becoming the layer-by-layer feed; the input is stored in layer 0, and so also in the change row aliased with it; the output layer is returned |
| DeepNetwork.ForwardIsPredict | nn/Network.go:80-104 | what forward propagation returns is the pure prediction from the weights and the input |
| DeepNetwork.OutputDeltas | nn/Network.go:117-119 | output delta i is the derivative at output activation i times the target error; OutputDeltaEntry reads it back from the stored deltas |
| DeepNetwork.DeltasFrom | nn/Network.go:115-129 | the last delta row is the output deltas and each lower row pulls back the row above through the weights above |
| DeepNetwork.OutputDeltaEntry | nn/Network.go:117-119 | each output delta is the derivative at the output activation times the target error |
| DeepNetwork.HiddenDeltaEntry | nn/Network.go:121-129 | each hidden delta is the derivative at its activation times the deltas above weighted by the weights from it |
| DeepNetwork.CalculateDeltas | nn/Network.go:107-130 | panics on an input-size mismatch, then on an output-size mismatch, and with a single layer on indexing the empty deltas; otherwise it forward-propagates and stores deltas that satisfy the delta equations, leaving the weights alone |
| DeepNetwork.SweepColumns | nn/Network.go:138-144 | within a layer each weight gets the momentum rule, using as momentum the change written by the previous row of the same sweep, and each change ends as the last row's delta times the activation |
| DeepNetwork.SweepLayers | nn/Network.go:137-145 | every layer from the starting one is swept by that rule, and layers below it are untouched |
| DeepNetwork.ApplyUpdate | nn/Network.go:137-145 | the update skips layer 0's weights and the output row of changes, keeps activations and deltas, and moves every weight of layers 1.. by the momentum rule |
| DeepNetwork.BackPropagate | nn/Network.go:133-155 | succeeds exactly when the example fits and the network has two or more layers, failing with the delta computation's panic otherwise; it applies the update to the network with deltas, and returns half the squared output error, never negative |
| DeepNetwork.TwoLayerWeightsUnchanged | nn/Network.go:137 | with only input and output layers, back-propagation changes no weight |
| DeepNetwork.MomentumFreeIsDeltaRule | nn/Network.go:140-141 | with momentum factor 0 the update is the plain delta rule |
| DeepNetwork.DeltasFailureIsShapeFailure | nn/Network.go:107-111 | the delta computation succeeds exactly for accepted shapes and otherwise fails with the shape's failure |
| DeepNetwork.BackPropagateLaws | nn/Network.go:162-166 | the training step keeps the network well formed with its setup, and succeeds or fails exactly according to the example's shape |
| DeepNetwork.TrainNetwork | nn/Network.go:158-174 | training gives one accuracy (1 − mean error) · 100 per epoch; it succeeds exactly when there are no epochs or every example is accepted, and otherwise fails at the first rejected example; each accuracy is a number exactly when there are examples and is at most 100 |
| DeepNetwork.EvalStep | nn/Network.go:182-184 | evaluating one example keeps the weights; it fails on a size mismatch; its error is the prediction error, never negative |
| DeepNetwork.ErrorOfWeights | nn/Network.go:182-184 | an example's error depends only on the structure, weights and activation function |
| DeepNetwork.EvalStepLaws | nn/Network.go:178-188 | evaluation keeps the weights, decides success by the example's sizes, and costs each example's own error |
| DeepNetwork.EvaluateNetwork | nn/Network.go:178-188 | evaluation succeeds exactly when all examples fit, failing at the first misfit; the result is the accuracy (1 − mean error) · 100: NaN without examples, otherwise at most 100 |
| DeepNetwork.EvaluationRepeatable | nn/Network.go:178-188 | re-evaluating on the returned network gives the same total error |
| DeepNetwork.ExactNetworkScoresFull | nn/Network.go:178-188 | a network that predicts every target exactly scores 100 |
| OperandNetwork.Relu | operand/neuralnetwork.go:23-30 | the flag selects the slope (1 exactly for positive input, else 0) or the rectifier (non-negative, at least the input, 0 or the input) |
| OperandNetwork.ReluAgreesWithActivationFunctions | operand/neuralnetwork.go:23-30 | both settings of the flag agree with the `nn` package's Relu and DRelu |
| OperandNetwork.Sigmoid | operand/neuralnetwork.go:45-50 | the flag selects the output-form derivative (at most 1/4, zero exactly at 0 and 1) or the logistic value (in (0, 1), reciprocal of 1 + e^-x) |
| OperandNetwork.Softmax | operand/neuralnetwork.go:32-43 | each entry is positive and equals its exponential divided by the sum of all exponentials |
| OperandNetwork.SoftmaxSumsToOne | operand/neuralnetwork.go:32-43 | the softmax of a non-empty vector sums to 1 and no entry exceeds 1 |
| OperandNetwork.GenerateDesiredOutput | operand/neuralnetwork.go:52-62 | a vector of length max(l, 0), holding 1 at position n and 0 everywhere else |
| OperandNetwork.DesiredOutputSum | operand/neuralnetwork.go:52-62 | the target sums to 1 when n is a valid position and to 0 otherwise |
| OperandNetwork.SquaredError | operand/neuralnetwork.go:64-72 | panics exactly when the lengths differ; otherwise half the sum of squared differences, never negative |
| OperandNetwork.InitializeRandomNetwork | operand/neuralnetwork.go:78-115 | an empty structure panics; otherwise the weights and biases have the shape of the structure; the weight at [l][j][k] is that position's weight draw and the bias at [l][j] that position's bias draw; the settings are kept |
| OperandNetwork.InitialValuesInRange | operand/neuralnetwork.go:98-110 | with draws in [0, 1), every initial weight and bias lies in [0, 1) |
| OperandNetwork.LayerOut | operand/neuralnetwork.go:127-131 | neuron j's value is the logistic function of its bias plus the dot product of the input with its weights, strictly between 0 and 1 |
| OperandNetwork.Propagate | operand/neuralnetwork.go:126-134 | the layer loop ends with a vector as wide as the last layer, every entry strictly between 0 and 1; PropagateLastLayer gives its layer-by-layer value |
| OperandNetwork.PropagateLastLayer | operand/neuralnetwork.go:126-134 | propagating through all layers is propagating through all but the last and then applying the last layer |
| OperandNetwork.ForwardPropagateInput | operand/neuralnetwork.go:117-136 | reading `Weights[0][0]` panics on an index when there is no weight layer or the first layer is empty; a wrong input size panics; otherwise the output has the last layer's width and entries in (0, 1) |
| OperandNetwork.TwoLayerForward | operand/neuralnetwork.go:126-134 | with one weight layer each output is the sigmoid of its bias plus the weighted input |
| OperandNetwork.InitializedNetworkForwards | operand/neuralnetwork.go:78-136 | a freshly initialised network with a non-empty first layer accepts an input of the input-layer size and returns one value per output neuron |
| OperandNetwork.CalculateSquaredErrorForExample | operand/neuralnetwork.go:74-76 | fails with the forward pass's panic, else with a length mismatch; otherwise it is half the squared distance from the target to the softmax of the output, never negative |
| OperandNetwork.ExampleErrorBound | operand/neuralnetwork.go:74-76 | for targets in [0, 1] the example error is at most half the number of outputs |
| OperandNetwork.BackPropegateExample | operand/neuralnetwork.go:138-202 | panics on an input-size mismatch, then on an output-size mismatch, then on an out-of-range read in the hidden loop; otherwise it returns the output errors target − output |
| OperandNetwork.TwoLayerBackPropagates | operand/neuralnetwork.go:138-202 | a network with no hidden layer and matching sizes returns its output errors without panicking |
| OperandNetwork.WideHiddenLayerPanics | operand/neuralnetwork.go:172-185 | with structure [2, 3, 2] the hidden loop reads past a weight row and panics |
| OperandNetwork.OutputErrorsGiveSquaredError | operand/neuralnetwork.go:164-200 | the returned output errors determine the example's squared error: it is half their sum of squares |
| ExampleSet.NormalizeImage | main.go:150-151 | each pixel becomes its byte divided by 255, a value in [0, 1] |
| ExampleSet.NormalizeImages | main.go:147-155 | image i becomes normalised vector i |
| ExampleSet.NormalizeImagesRoundTrip | main.go:147-155 | multiplying a normalised pixel by 255 gives back its byte |
| ExampleSet.NormalizeLabels | main.go:157-164 | each label byte becomes the integer at the same position, between 0 and 255 |
| ExampleSet.DesiredOutputDecodes | main.go:166-176 | the position of the 1 in the target for n is n when n is a valid position, and there is no 1 otherwise |
| ExampleSet.CreateExampleSet | main.go:178-201 | succeeds exactly when there are at least as many labels as images (otherwise reading the labels panics); example i pairs normalised image i with the one-hot target of label i over 10 digits |
| ExampleSet.ExampleSetRoundTrip | main.go:178-201 | every image and every digit label can be read back from its example, and a label of 10 or more leaves a target with no 1 |
| Sorting.Sort | statistics/SingleVariable.go:66 | the sorted data is in ascending order and is a permutation of the input |
| Sorting.SortedUnique | statistics/SingleVariable.go:83 | there is only one sorted permutation of any data |
| Sorting.SortKeepsSorted | statistics/SingleVariable.go:83 | sorting data that is already sorted changes nothing |
| SingleVariable.SumIgnoresOrder | statistics/SingleVariable.go:9-15 | the sum of a permutation of the data is the sum of the data |
| SingleVariable.Mean | statistics/SingleVariable.go:18-20 | NaN exactly for empty data; otherwise the mean times the count is the sum |
| SingleVariable.MeanBounds | statistics/SingleVariable.go:18-20 | the mean lies between any lower and upper bound of the data, and does not depend on the order of the data |
| SingleVariable.MeanExample | statistics/single_variable_test.go:8-13 | the mean of 1, 2, 3, 4, 5 is 3 |
| SingleVariable.Frequency | statistics/SingleVariable.go:33-39 | the keys are exactly the values in the data, each mapped to its number of occurrences |
| SingleVariable.FrequencyTotal | statistics/SingleVariable.go:33-39 | the counts over all keys add up to the number of data points |
| SingleVariable.FrequencyIsCounts | statistics/SingleVariable.go:33-39 | any map that sends exactly the data's values to their occurrence counts is the frequency map |
| SingleVariable.FrequencyExample | statistics/single_variable_test.go:22-36 | the frequencies of 1, 2, 2, 2, 3, 3, 4, 5 are 1, 3, 2, 1, 1 |
| SingleVariable.ModeScan | statistics/SingleVariable.go:47-54 | after visiting some keys, the criterion is their largest count and the outputs are exactly the visited keys that reach it, each once |
| SingleVariable.Mode | statistics/SingleVariable.go:42-57 | for any key order, the result holds exactly the values whose count no other value exceeds, each once, and nothing for empty data |
| SingleVariable.StrictModeAlone | statistics/SingleVariable.go:42-57 | a value more frequent than every other value is the whole result, whatever the key order |
| SingleVariable.ModeExample | statistics/single_variable_test.go:38-44 | the mode of 1, 2, 2, 2, 3, 3, 4, 5 is 2 alone, for every key order |
| SingleVariable.Min | statistics/SingleVariable.go:65-68 | indexing empty data panics; otherwise the data comes back sorted, as a permutation, and the result is a data value no larger than any other |
| SingleVariable.Max | statistics/SingleVariable.go:71-74 | indexing empty data panics; otherwise the data comes back sorted, as a permutation, and the result is a data value no smaller than any other |
| SingleVariable.Range | statistics/SingleVariable.go:106-108 | indexing empty data panics; otherwise the range is non-negative, bounds every difference of two data values, and is such a difference |
| SingleVariable.Hits | statistics/SingleVariable.go:89-93 | the number of requests that fall in a bucket is at most the number of requests |
| SingleVariable.HitsMeans | statistics/SingleVariable.go:89-93 | a bucket emits something exactly when some request lies within its bounds |
| SingleVariable.OverrunsMeans | statistics/SingleVariable.go:88-95 | the bucket loop reads past the data exactly when some bucket at or beyond the data's length still starts below 100 and is requested |
| SingleVariable.Buckets | statistics/SingleVariable.go:88-95 | the bucket loop panics exactly when it would read past the data, and otherwise emits only data values |
| SingleVariable.BucketsSorted | statistics/SingleVariable.go:88-95 | on sorted data the emitted values are in ascending order and no smaller than the first bucket's value |
| SingleVariable.Percentile | statistics/SingleVariable.go:82-97 | empty data divides by zero; more than 100 points with no request for 0 never return; an out-of-range read panics; otherwise the data comes back sorted and the results are ascending data values |
| SingleVariable.PercentileDefined | statistics/SingleVariable.go:82-97 | `Percentile` returns exactly for 1 to 100 points when no requested bucket lies beyond the data |
| SingleVariable.FirstBucket | statistics/SingleVariable.go:88-90 | the first bucket whose bounds contain a percentage p starts at or below p and ends at or above p, and every earlier bucket ends below p |
| SingleVariable.PercentileAnswersEveryRequest | statistics/SingleVariable.go:88-95 | every request within 0..100 gets at least one answer |
| SingleVariable.PercentileOfOne | statistics/SingleVariable.go:82-97 | the first answer to a single request p is the sorted value at p's first bucket |
| SingleVariable.PercentileMonotone | statistics/SingleVariable.go:82-97 | a higher single request never gets a smaller first answer |
| SingleVariable.Median | statistics/SingleVariable.go:77-79 | the median exists exactly for 1 to 100 points: it panics for empty data and never returns beyond 100; it is the sorted value at the 50 % bucket |
| SingleVariable.MedianAnswered | statistics/SingleVariable.go:77-79 | for 1 to 100 points the 50 % request is always answered, by the sorted value at its first bucket |
| SingleVariable.MedianOfFive | statistics/SingleVariable.go:77-79 | the median of five values is the third smallest |
| SingleVariable.PercentileTestExample | statistics/single_variable_test.go:46-59 | the 50th percentile and the median of 1, 10, 11, 15, 19 are both 11 |
| SingleVariable.IQR | statistics/SingleVariable.go:100-103 | the inter-quartile range as written exists exactly when both quartiles do, and is never positive |
| SingleVariable.IQRDefined | statistics/SingleVariable.go:100-103 | the inter-quartile range fails exactly as `Percentile` does for the requests 75 and 25 |
| SingleVariable.IQRIsFirstQuartileMinus | statistics/SingleVariable.go:100-103 | the result is the sorted value at the 25 % bucket minus a data value at least as large |
| SingleVariable.QuartileAnswers | statistics/SingleVariable.go:101 | the requests 75 and 25 get at least two answers, the first being the 25 % value and the second a data value no smaller |
| SingleVariable.HitsIgnoresOrder | statistics/SingleVariable.go:89-93 | the number of requests in a bucket does not depend on the order of the requests |
| SingleVariable.PercentileIgnoresRequestOrder | statistics/SingleVariable.go:82-97 | permuting the requests changes nothing in the result, since answers come out in bucket order |
| SingleVariable.BoundaryAnsweredTwice | statistics/SingleVariable.go:90 | a request on the boundary of two buckets (40 for five points) is answered twice, by the second and third values |
| SingleVariable.IQROfFive | statistics/SingleVariable.go:100-103 | for five sorted values the code returns the second minus the fourth |
| SingleVariable.IQRExample | statistics/SingleVariable.go:100-103 | the code gives −2 as the inter-quartile range of 1, 2, 3, 4, 5 |
| SingleVariable.PercentilePastEnd | statistics/SingleVariable.go:86-95 | for three points the request 100 reads a fourth point and panics |
| SingleVariable.MedianOfManyNeverReturns | statistics/SingleVariable.go:86-88 | beyond 100 points the median never returns, while the corrected percentile answers |
| SingleVariable.PercentileClamped | statistics/SingleVariable.go:82-97 | corrected percentile: succeeds for all non-empty data, returning the sorted data and ascending data values |
| SingleVariable.ClampedAgrees | statistics/SingleVariable.go:82-97 | wherever the original percentile returns, the corrected one returns the same |
| SingleVariable.ClampedOfOne | statistics/SingleVariable.go:82-97 | the corrected percentile's answer to a single request p is the clamped bucket value of p |
| SingleVariable.ClampedMonotone | statistics/SingleVariable.go:82-97 | on sorted data the clamped bucket value never decreases as p grows |
| SingleVariable.IQRCorrected | statistics/SingleVariable.go:100-103 | corrected inter-quartile range: the 75 % value minus the 25 % value, defined for all non-empty data and never negative |
| SingleVariable.IQRCorrectedExample | statistics/SingleVariable.go:100-103 | the corrected inter-quartile range of 1, 2, 3, 4, 5 is 2 |
| SingleVariable.IQRCorrectedOfFive | statistics/SingleVariable.go:100-103 | for five sorted values the corrected range is the fourth minus the second |
| SingleVariable.PercentileClampedPastEnd | statistics/SingleVariable.go:86-95 | the corrected percentile answers the request 100 on 1, 2, 3 with 3 |

## Left out

- Random seeding, `rand.Float64` and `time.Now`: the draws are parameters, one value per weight position, and each initialiser says which draw fills which weight.
- `math.Exp`, `math.Tanh` and the network's activation functions are parameters. Only the positivity of the exponential is assumed, as a precondition.
- Floating-point rounding, infinities and overflow: numbers are reals. Division by zero appears only as 0/0, which gives NaN (`Outcome.Float`).
- `Std` and `Variance` in statistics/SingleVariable.go need `math.Sqrt` and `math.Pow` on non-squares, which have no exact real model.
- `TanH` in nn/ActivationFunctions.go is the parameter itself; only its derivative has a contract.
- Console output: the debug printing of `TrainNetwork`, the progress dots of `InitializeRandomNetwork`, the mismatch message of `createExampleSet` and the diagnostics of `BackPropegateExample`.
- main.go's `main`, `loadMNISTData`, `runTestIteration` and string helpers, and the gomnist decoder: these are I/O and experiment drivers.
- OperandNetwork.BackPropegateExample: the unfinished hidden-layer loop stores nothing, so the model keeps only the out-of-range read that can panic (`HiddenReadOverruns`) and the returned output errors.
- Negative sizes and epoch counts: sizes are naturals, so `make` with a negative length cannot occur.
- Go's map iteration order in `Mode` is a parameter (`order`), because the language leaves it unspecified. The contract holds for every order.
- A loop that never ends (`Percentile` with more than 100 points) is the failure `NonTermination`, not a divergent function.
- Slice aliasing: the model keeps only the aliasing the code relies on, `Changes[0]` sharing its slice with `Activations[0]` in nn/Network.go. The callers' slices are otherwise values, and in-place sorting is a returned sorted slice.
- Training and evaluation are not claimed to converge or improve accuracy. The contracts cover shapes, failures and the per-weight update rule.
- DeepNetwork.Predict and BiasNetwork.Predict state only the output width; ForwardIsPredict ties them to the forward pass, whose contract gives each neuron's value.

## Findings

| source | as written | input that shows it | evidently intended | confidence | as-written member | corrected member |
|---|---|---|---|---|---|---|
| statistics/SingleVariable.go:100-103 | `p[0] - p[1]` with answers emitted in bucket order, giving the 25th percentile minus the 75th | data 1, 2, 3, 4, 5 gives −2 | the 75th percentile minus the 25th, never negative (2 here) | not executed | SingleVariable.IQRExample | SingleVariable.IQRCorrected |
| statistics/SingleVariable.go:86-95 | buckets advance until 100 with step 100 / n, so more than n buckets exist when n does not divide 100, and a high request reads `data[n]` | three points with request 100 read a fourth point and panic | the last bucket answers with the largest value | not executed | SingleVariable.PercentilePastEnd | SingleVariable.PercentileClamped |
| statistics/SingleVariable.go:86-88 | for more than 100 points the step 100 / n is 0 and `i += 0` never ends | the median of 101 points never returns | a positive step, so every input gets an answer | not executed | SingleVariable.MedianOfManyNeverReturns | SingleVariable.PercentileClamped |
| nn/Network.go:27-33 | the loop variable shadows the size, so `i < i` is false at once and no entry is filled | CreateVector(3, 1.0) gives 0, 0, 0 | i copies of the fill value, as in nn/network.go; every call in nn/Network.go passes 0.0, so the networks are unaffected | not executed | DeepNetwork.CreateVectorIgnoresFill | BiasNetwork.CreateVector |
