/** Worked examples of the Persister, from its docstring. */
module ComputerExamples {
  import opened Wrappers
  import Labeller
  import LabellerExamples
  import opened Computer

  /** The docstring's `Persister('resources/bag.png')`: labelled `bag`, and saved as PNG for a four-channel image. */
  lemma PersisterExample()
    ensures PersisterLabel(None, path => Labeller.Label(Labeller.Default, path), "resources" + "/" + "bag" + "." + "png") == Success("bag")
    ensures PersisterExt(4) == Png
  {
    LabellerExamples.NoSeparatorExample();
  }
}
