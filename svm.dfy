/** The parameter side of the LibSVM machine learning model: the libsvm
    `svm_parameter` record it owns and the setters and getters around it,
    with ITK's modification time as a counter that `Modified()` advances. */
module SvmModel {
  import opened Numeric

  /** The fields of `svm_parameter` that the model's accessors touch. */
  datatype SvmParameter = SvmParameter(
    svmType: int,
    kernelType: int,
    degree: int,
    gamma: real,
    coef0: real,
    c: real,
    eps: real,
    p: real,
    nu: real,
    probability: int,
    shrinking: int,
    cacheSize: real)

  class LibSvmMachineLearningModel {
    /** `m_Parameters` */
    var parameters: SvmParameter
    /** `m_ParameterOptimization` */
    var parameterOptimization: bool
    /** The object's modification time: one step per `Modified()` call. */
    var mTime: nat

    /** The initial record is set by the constructor in the template
        implementation file, which is not part of this model; parameter
        optimisation is documented to start switched off. */
    constructor (initial: SvmParameter)
      ensures parameters == initial && !parameterOptimization && mTime == 0
    {
      parameters := initial;
      parameterOptimization := false;
      mTime := 0;
    }

    // --- otbSetSVMParameterMacro setters: store and call Modified() only
    // --- when the new value differs from the stored one.

    method SetSVMType(arg: int)
      modifies this
      ensures GetSVMType() == arg
      ensures parameters == old(parameters).(svmType := arg)
      ensures mTime == if old(parameters.svmType) != arg then old(mTime) + 1 else old(mTime)
      ensures parameterOptimization == old(parameterOptimization)
    {
      if parameters.svmType != arg {
        parameters := parameters.(svmType := arg);
        mTime := mTime + 1;
      }
    }

    function GetSVMType(): int
      reads this
    {
      parameters.svmType
    }

    method SetKernelType(arg: int)
      modifies this
      ensures GetKernelType() == arg
      ensures parameters == old(parameters).(kernelType := arg)
      ensures mTime == if old(parameters.kernelType) != arg then old(mTime) + 1 else old(mTime)
      ensures parameterOptimization == old(parameterOptimization)
    {
      if parameters.kernelType != arg {
        parameters := parameters.(kernelType := arg);
        mTime := mTime + 1;
      }
    }

    function GetKernelType(): int
      reads this
    {
      parameters.kernelType
    }

    method SetPolynomialKernelDegree(arg: int)
      modifies this
      ensures GetPolynomialKernelDegree() == arg
      ensures parameters == old(parameters).(degree := arg)
      ensures mTime == if old(parameters.degree) != arg then old(mTime) + 1 else old(mTime)
      ensures parameterOptimization == old(parameterOptimization)
    {
      if parameters.degree != arg {
        parameters := parameters.(degree := arg);
        mTime := mTime + 1;
      }
    }

    function GetPolynomialKernelDegree(): int
      reads this
    {
      parameters.degree
    }

    method SetKernelGamma(arg: real)
      modifies this
      ensures GetKernelGamma() == arg
      ensures parameters == old(parameters).(gamma := arg)
      ensures mTime == if old(parameters.gamma) != arg then old(mTime) + 1 else old(mTime)
      ensures parameterOptimization == old(parameterOptimization)
    {
      if parameters.gamma != arg {
        parameters := parameters.(gamma := arg);
        mTime := mTime + 1;
      }
    }

    function GetKernelGamma(): real
      reads this
    {
      parameters.gamma
    }

    method SetKernelCoef0(arg: real)
      modifies this
      ensures GetKernelCoef0() == arg
      ensures parameters == old(parameters).(coef0 := arg)
      ensures mTime == if old(parameters.coef0) != arg then old(mTime) + 1 else old(mTime)
      ensures parameterOptimization == old(parameterOptimization)
    {
      if parameters.coef0 != arg {
        parameters := parameters.(coef0 := arg);
        mTime := mTime + 1;
      }
    }

    function GetKernelCoef0(): real
      reads this
    {
      parameters.coef0
    }

    method SetC(arg: real)
      modifies this
      ensures GetC() == arg
      ensures parameters == old(parameters).(c := arg)
      ensures mTime == if old(parameters.c) != arg then old(mTime) + 1 else old(mTime)
      ensures parameterOptimization == old(parameterOptimization)
    {
      if parameters.c != arg {
        parameters := parameters.(c := arg);
        mTime := mTime + 1;
      }
    }

    function GetC(): real
      reads this
    {
      parameters.c
    }

    method SetEpsilon(arg: real)
      modifies this
      ensures GetEpsilon() == arg
      ensures parameters == old(parameters).(eps := arg)
      ensures mTime == if old(parameters.eps) != arg then old(mTime) + 1 else old(mTime)
      ensures parameterOptimization == old(parameterOptimization)
    {
      if parameters.eps != arg {
        parameters := parameters.(eps := arg);
        mTime := mTime + 1;
      }
    }

    function GetEpsilon(): real
      reads this
    {
      parameters.eps
    }

    method SetP(arg: real)
      modifies this
      ensures GetP() == arg
      ensures parameters == old(parameters).(p := arg)
      ensures mTime == if old(parameters.p) != arg then old(mTime) + 1 else old(mTime)
      ensures parameterOptimization == old(parameterOptimization)
    {
      if parameters.p != arg {
        parameters := parameters.(p := arg);
        mTime := mTime + 1;
      }
    }

    function GetP(): real
      reads this
    {
      parameters.p
    }

    method SetNu(arg: real)
      modifies this
      ensures GetNu() == arg
      ensures parameters == old(parameters).(nu := arg)
      ensures mTime == if old(parameters.nu) != arg then old(mTime) + 1 else old(mTime)
      ensures parameterOptimization == old(parameterOptimization)
    {
      if parameters.nu != arg {
        parameters := parameters.(nu := arg);
        mTime := mTime + 1;
      }
    }

    function GetNu(): real
      reads this
    {
      parameters.nu
    }

    // --- itkSetMacro / itkGetMacro on m_ParameterOptimization: the same
    // --- compare-then-Modified() rule, outside the record.

    method SetParameterOptimization(arg: bool)
      modifies this
      ensures GetParameterOptimization() == arg && parameters == old(parameters)
      ensures mTime == if old(parameterOptimization) != arg then old(mTime) + 1 else old(mTime)
    {
      if parameterOptimization != arg {
        parameterOptimization := arg;
        mTime := mTime + 1;
      }
    }

    function GetParameterOptimization(): bool
      reads this
    {
      parameterOptimization
    }

    // --- The hand-written accessors.

    /** Stores the flag as 0 or 1 and, unlike the macro setters, never calls
        Modified(). */
    method DoProbabilityEstimates(prob: bool)
      modifies this
      ensures parameters == old(parameters).(probability := if prob then 1 else 0)
      ensures GetDoProbabilityEstimates() == prob
      ensures mTime == old(mTime) && parameterOptimization == old(parameterOptimization)
    {
      parameters := parameters.(probability := if prob then 1 else 0);
    }

    /** `static_cast<bool>` of the stored int: any non-zero value is true. */
    function GetDoProbabilityEstimates(): bool
      reads this
    {
      parameters.probability != 0
    }

    /** Stores the flag as 0 or 1 and calls Modified() even when the stored
        value does not change. */
    method DoShrinking(s: bool)
      modifies this
      ensures parameters == old(parameters).(shrinking := if s then 1 else 0)
      ensures GetDoShrinking() == s
      ensures mTime == old(mTime) + 1 && parameterOptimization == old(parameterOptimization)
    {
      parameters := parameters.(shrinking := if s then 1 else 0);
      mTime := mTime + 1;
    }

    function GetDoShrinking(): bool
      reads this
    {
      parameters.shrinking != 0
    }

    /** The cache size is an int stored in a double field; Modified() is
        always called. */
    method SetCacheSize(cSize: int)
      modifies this
      ensures parameters == old(parameters).(cacheSize := cSize as real)
      ensures GetCacheSize() == cSize
      ensures mTime == old(mTime) + 1 && parameterOptimization == old(parameterOptimization)
    {
      parameters := parameters.(cacheSize := cSize as real);
      mTime := mTime + 1;
      TruncOfInt(cSize);
    }

    /** `static_cast<int>` of the stored double, truncating toward zero. */
    function GetCacheSize(): (n: int)
      reads this
      ensures parameters.cacheSize >= 0.0 ==> n as real <= parameters.cacheSize < n as real + 1.0
      ensures parameters.cacheSize < 0.0 ==> n as real - 1.0 < parameters.cacheSize <= n as real
    {
      Trunc(parameters.cacheSize)
    }
  }
}
